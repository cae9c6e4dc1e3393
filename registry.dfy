/**
 * The `releases` table of the registry as the ordered dictionary Python
 * keeps, and the promotion step that inserts a release and re-sorts the
 * table newest first.
 */
module Registry {
  import opened Outcomes
  import opened Versions
  import opened VersionSort

  ghost predicate NoDuplicates(s: seq<string>) {
    forall x :: multiset(s)[x] <= 1
  }

  /** An insertion-ordered dictionary from strings to strings. */
  datatype OrderedDict = OrderedDict(order: seq<string>, entries: map<string, string>) {

    /** Each key appears once in the order, and exactly the keys of the contents do. */
    ghost predicate Valid() {
      NoDuplicates(order) && forall k :: k in order <==> k in entries
    }

    /**
     * `d[k] = v`: a present key keeps its place and gets the new value, an
     * absent key is appended last.
     */
    function Put(k: string, v: string): (d: OrderedDict)
      ensures d.entries == entries[k := v]
      ensures d.entries.Keys == entries.Keys + {k}
      ensures |d.entries| == |entries| + (if k in entries then 0 else 1)
      ensures k in entries ==> d.order == order
      ensures k !in entries ==> d.order == order + [k]
      ensures Valid() ==> d.Valid()
      ensures Valid() ==> |d.order| == |order| + (if k in entries then 0 else 1)
    {
      if k in entries then OrderedDict(order, entries[k := v])
      else OrderedDict(order + [k], entries[k := v])
    }
  }

  /** The keys of decorated items, in order. */
  function Names(s: seq<Keyed>): (r: seq<string>)
    ensures |r| == |s| && forall i :: 0 <= i < |s| ==> r[i] == s[i].name
  {
    seq(|s|, i requires 0 <= i < |s| => s[i].name)
  }

  lemma NamesAppend(a: seq<Keyed>, b: seq<Keyed>)
    ensures Names(a + b) == Names(a) + Names(b)
  {
    var l, r := Names(a + b), Names(a) + Names(b);
    assert |l| == |r|;
    forall i | 0 <= i < |l| ensures l[i] == r[i] {
      if i < |a| {
        assert (a + b)[i] == a[i];
      } else {
        assert (a + b)[i] == b[i - |a|];
      }
    }
  }

  /** Taking one item out of a list takes its key out of the keys. */
  lemma NamesRemove(b: seq<Keyed>, j: nat)
    requires j < |b|
    ensures multiset(Names(b)) == multiset(Names(b[..j] + b[j + 1..])) + multiset{b[j].name}
  {
    var left, right := b[..j], b[j + 1..];
    var nl, nr := Names(left), Names(right);
    assert b == left + [b[j]] + right;
    NamesAppend(left + [b[j]], right);
    NamesAppend(left, [b[j]]);
    NamesAppend(left, right);
    assert Names([b[j]]) == [b[j].name];
    calc {
      multiset(Names(b));
      multiset(nl + [b[j].name] + nr);
      multiset(nl) + multiset{b[j].name} + multiset(nr);
      multiset(nl + nr) + multiset{b[j].name};
    }
  }

  lemma RemoveMatching(a: seq<Keyed>, b: seq<Keyed>, j: nat)
    requires multiset(a) == multiset(b) && a != [] && j < |b| && b[j] == a[0]
    ensures multiset(a[1..]) == multiset(b[..j] + b[j + 1..])
  {
    assert b == b[..j] + [b[j]] + b[j + 1..];
    assert a == [a[0]] + a[1..];
    assert multiset(b) == multiset(b[..j] + b[j + 1..]) + multiset{b[j]};
    assert multiset(a) == multiset(a[1..]) + multiset{a[0]};
    assert multiset(a[1..]) == multiset(a) - multiset{a[0]};
    assert multiset(b[..j] + b[j + 1..]) == multiset(b) - multiset{b[j]};
  }

  lemma NamesFirst(a: seq<Keyed>)
    requires a != []
    ensures multiset(Names(a)) == multiset(Names(a[1..])) + multiset{a[0].name}
  {
    assert Names(a) == [a[0].name] + Names(a[1..]);
  }

  /** Permuting decorated items permutes their keys. */
  lemma {:induction false} NamesPermutation(a: seq<Keyed>, b: seq<Keyed>)
    requires multiset(a) == multiset(b)
    ensures multiset(Names(a)) == multiset(Names(b))
  {
    if a != [] {
      assert a[0] in multiset(b);
      var j :| 0 <= j < |b| && b[j] == a[0];
      RemoveMatching(a, b, j);
      NamesPermutation(a[1..], b[..j] + b[j + 1..]);
      NamesRemove(b, j);
      NamesFirst(a);
    } else {
      assert b == [] by { assert |b| == |multiset(b)|; }
    }
  }

  /** Every item carries the version its key parses to. */
  predicate Decorated(s: seq<Keyed>) {
    forall i :: 0 <= i < |s| ==> VersionToList(s[i].name) == Ok(s[i].version)
  }

  lemma DecoratedPermutation(a: seq<Keyed>, b: seq<Keyed>)
    requires Decorated(a) && multiset(a) == multiset(b)
    ensures Decorated(b)
  {
    forall i | 0 <= i < |b| ensures VersionToList(b[i].name) == Ok(b[i].version) {
      assert b[i] in multiset(a);
    }
  }

  /**
   * The items `list.sort(key=version_to_list)` compares: each key with its
   * parsed version, or the error of the first key that does not parse.
   */
  function Decorate(names: seq<string>): (r: Result<seq<Keyed>>)
    ensures r.Ok? <==> forall i :: 0 <= i < |names| ==> VersionToList(names[i]).Ok?
    ensures r.Ok? ==> Names(r.value) == names && Decorated(r.value)
  {
    if names == [] then Ok([])
    else match VersionToList(names[0])
      case Err(e) => Err(e)
      case Ok(v) =>
        match Decorate(names[1..])
        case Err(e) =>
          TailFails(names);
          Err(e)
        case Ok(rest) =>
          DecoratedCons(names, v, rest);
          Ok([Keyed(v, names[0])] + rest)
  }

  lemma DecorateFirst(names: seq<string>)
    requires names != [] && VersionToList(names[0]).Ok? && Decorate(names[1..]).Ok?
    ensures Decorate(names)
            == Ok([Keyed(VersionToList(names[0]).value, names[0])] + Decorate(names[1..]).value)
  {
  }

  lemma TailFails(names: seq<string>)
    requires names != [] && !forall i :: 0 <= i < |names[1..]| ==> VersionToList(names[1..][i]).Ok?
    ensures !forall i :: 0 <= i < |names| ==> VersionToList(names[i]).Ok?
  {
    var i :| 0 <= i < |names[1..]| && !VersionToList(names[1..][i]).Ok?;
    assert names[i + 1] == names[1..][i];
  }

  lemma DecoratedCons(names: seq<string>, v: seq<nat>, rest: seq<Keyed>)
    requires names != [] && VersionToList(names[0]) == Ok(v)
    requires Names(rest) == names[1..] && Decorated(rest)
    ensures Names([Keyed(v, names[0])] + rest) == names
    ensures Decorated([Keyed(v, names[0])] + rest)
  {
    var r := [Keyed(v, names[0])] + rest;
    assert names == [names[0]] + names[1..];
    assert forall i :: 1 <= i < |r| ==> r[i] == rest[i - 1];
  }

  /** The error of a failed decoration is the parse error of one of the keys. */
  lemma {:induction false} DecorateError(names: seq<string>)
    requires Decorate(names).Err?
    ensures exists i :: 0 <= i < |names| && VersionToList(names[i]) == Err(Decorate(names).error)
  {
    if VersionToList(names[0]).Ok? {
      DecorateError(names[1..]);
      var i :| 0 <= i < |names[1..]| && VersionToList(names[1..][i]) == Err(Decorate(names[1..]).error);
      assert names[i + 1] == names[1..][i];
    }
  }

  /** Every key parses, and no key's version is below that of a later key. */
  predicate DescendingByVersion(order: seq<string>) {
    && (forall i :: 0 <= i < |order| ==> VersionToList(order[i]).Ok?)
    && (forall i, j :: 0 <= i < j < |order| ==>
          AtMost(VersionToList(order[j]).value, VersionToList(order[i]).value))
  }

  /** Every key parses, and each key's version is above that of every later key. */
  predicate StrictlyDescendingByVersion(order: seq<string>) {
    && (forall i :: 0 <= i < |order| ==> VersionToList(order[i]).Ok?)
    && (forall i, j :: 0 <= i < j < |order| ==>
          Less(VersionToList(order[j]).value, VersionToList(order[i]).value))
  }

  /** The keys of `order` that parse to `v`, in their order. */
  function TiedKeys(order: seq<string>, v: seq<nat>): seq<string> {
    if order == [] then []
    else (if VersionToList(order[0]) == Ok(v) then [order[0]] else []) + TiedKeys(order[1..], v)
  }

  lemma {:induction false} NamesOfTies(s: seq<Keyed>, v: seq<nat>)
    requires Decorated(s)
    ensures Names(Ties(s, v)) == TiedKeys(Names(s), v)
  {
    if s != [] {
      var rest := s[1..];
      DecoratedTail(s);
      NamesOfTies(rest, v);
      var head := if s[0].version == v then [s[0]] else [];
      assert Ties(s, v) == head + Ties(rest, v);
      NamesAppend(head, Ties(rest, v));
      TiedKeysFirst(s, v);
    }
  }

  lemma DecoratedTail(s: seq<Keyed>)
    requires s != [] && Decorated(s)
    ensures Decorated(s[1..])
  {
    assert forall i :: 0 <= i < |s[1..]| ==> s[1..][i] == s[i + 1];
  }

  lemma TiedKeysFirst(s: seq<Keyed>, v: seq<nat>)
    requires s != [] && Decorated(s)
    ensures TiedKeys(Names(s), v)
            == Names(if s[0].version == v then [s[0]] else []) + TiedKeys(Names(s[1..]), v)
  {
    var ns := Names(s);
    assert ns[0] == s[0].name && VersionToList(ns[0]) == Ok(s[0].version);
    assert ns[1..] == Names(s[1..]);
  }

  /**
   * Lines 38-41: list the keys, stable-sort them ascending by parsed
   * version and reverse the result.
   */
  function SortByVersionDescending(order: seq<string>): (r: Result<seq<string>>)
    ensures r.Ok? <==> forall i :: 0 <= i < |order| ==> VersionToList(order[i]).Ok?
    ensures r.Err? ==> exists i :: 0 <= i < |order| && VersionToList(order[i]) == Err(r.error)
    ensures r.Ok? ==> multiset(r.value) == multiset(order)
    ensures r.Ok? ==> DescendingByVersion(r.value)
  {
    match Decorate(order)
    case Err(e) =>
      DecorateError(order);
      Err(e)
    case Ok(ks) =>
      SortedNamesDescend(ks);
      Ok(Names(Reverse(SortAscending(ks))))
  }

  lemma SortedNamesDescend(ks: seq<Keyed>)
    requires Decorated(ks)
    ensures multiset(Names(Reverse(SortAscending(ks)))) == multiset(Names(ks))
    ensures DescendingByVersion(Names(Reverse(SortAscending(ks))))
  {
    var sorted := Reverse(SortAscending(ks));
    NamesPermutation(sorted, ks);
    DecoratedPermutation(ks, sorted);
    ReversedDescends(SortAscending(ks));
    DescendingNames(sorted);
  }

  /** Reversing an ascending list gives one that never increases. */
  lemma ReversedDescends(a: seq<Keyed>)
    requires Ascending(a)
    ensures forall i, j :: 0 <= i < j < |a| ==> AtMost(Reverse(a)[j].version, Reverse(a)[i].version)
  {
    var r := Reverse(a);
    forall i, j | 0 <= i < j < |a| ensures AtMost(r[j].version, r[i].version) {
      assert r[j] == a[|a| - 1 - j] && r[i] == a[|a| - 1 - i];
    }
  }

  lemma DescendingNames(s: seq<Keyed>)
    requires Decorated(s)
    requires forall i, j :: 0 <= i < j < |s| ==> AtMost(s[j].version, s[i].version)
    ensures DescendingByVersion(Names(s))
  {
    var names := Names(s);
    assert forall i :: 0 <= i < |names| ==> VersionToList(names[i]) == Ok(s[i].version);
  }

  /**
   * Keys whose versions tie come out in the reverse of their order before
   * the sort.
   */
  lemma TiesComeOutReversed(order: seq<string>, v: seq<nat>)
    requires SortByVersionDescending(order).Ok?
    ensures TiedKeys(SortByVersionDescending(order).value, v) == Reverse(TiedKeys(order, v))
  {
    var ks := Decorate(order).value;
    var a := SortAscending(ks);
    DecoratedPermutation(ks, a);
    DecoratedPermutation(ks, Reverse(a));
    NamesOfTies(Reverse(a), v);
    ReverseTies(a, v);
    SortStable(ks, v);
    NamesOfTies(ks, v);
    var t := Ties(ks, v);
    assert Names(Reverse(t)) == Reverse(Names(t));
  }

  /** Re-sorting a table that strictly descends leaves its order unchanged. */
  lemma ResortStrictlyDescending(order: seq<string>)
    requires StrictlyDescendingByVersion(order)
    ensures SortByVersionDescending(order) == Ok(order)
  {
    var ks := Decorate(order).value;
    assert StrictlyDescending(ks) by {
      forall i, j | 0 <= i < j < |ks| ensures Less(ks[j].version, ks[i].version) {
        assert ks[i].name == order[i] && ks[j].name == order[j];
      }
    }
    SortStrictlyDescending(ks);
    ReverseReverse(ks);
  }

  /**
   * With ties the re-sort is not idempotent: keys that all parse to one
   * version swap order on every application.
   */
  lemma ResortFlipsTies(order: seq<string>, v: seq<nat>)
    requires forall i :: 0 <= i < |order| ==> VersionToList(order[i]) == Ok(v)
    ensures SortByVersionDescending(order) == Ok(Reverse(order))
  {
    var r := SortByVersionDescending(order).value;
    TiesComeOutReversed(order, v);
    AllTied(order, v);
    forall i | 0 <= i < |r| ensures VersionToList(r[i]) == Ok(v) {
      assert r[i] in multiset(order);
    }
    AllTied(r, v);
  }

  lemma {:induction false} AllTied(order: seq<string>, v: seq<nat>)
    requires forall i :: 0 <= i < |order| ==> VersionToList(order[i]) == Ok(v)
    ensures TiedKeys(order, v) == order
  {
    if order != [] {
      AllTied(order[1..], v);
    }
  }

  /**
   * Lines 37-41: set `releases[version] = hash`, then rewrite the table
   * newest first. Fails with the error of the first key that does not parse.
   */
  function PromoteReleases(releases: OrderedDict, version: string, hash: string): (r: Result<OrderedDict>)
    requires releases.Valid()
    ensures r.Err? <==> exists k :: k in releases.Put(version, hash).entries && VersionToList(k).Err?
    ensures r.Ok? ==> r.value.Valid()
    ensures r.Ok? ==> r.value.entries == releases.entries[version := hash]
    ensures r.Ok? ==> multiset(r.value.order) == multiset(releases.Put(version, hash).order)
    ensures r.Ok? ==> DescendingByVersion(r.value.order)
  {
    var inserted := releases.Put(version, hash);
    SortFailsOnUnparsableKey(inserted);
    match SortByVersionDescending(inserted.order)
    case Err(e) => Err(e)
    case Ok(order) =>
      ReorderKeepsValid(inserted, order);
      Ok(OrderedDict(order, inserted.entries))
  }

  lemma SortFailsOnUnparsableKey(d: OrderedDict)
    requires d.Valid()
    ensures SortByVersionDescending(d.order).Err? <==> exists k :: k in d.entries && VersionToList(k).Err?
  {
    if exists k :: k in d.entries && VersionToList(k).Err? {
      var k :| k in d.entries && VersionToList(k).Err?;
      assert k in d.order;
    }
  }

  /** A permutation of a valid dictionary's order is again a valid order. */
  lemma ReorderKeepsValid(d: OrderedDict, order: seq<string>)
    requires d.Valid() && multiset(order) == multiset(d.order)
    ensures OrderedDict(order, d.entries).Valid()
  {
    forall k ensures k in order <==> k in d.entries {
      assert k in order <==> k in multiset(order);
      assert k in d.order <==> k in multiset(d.order);
    }
  }
}
