/**
 * The stable sort that `list.sort(key=...)` performs on the registry's
 * release keys, on items decorated with their parsed versions, and the
 * reversal that follows it.
 */
module VersionSort {
  import opened Versions

  /** A release key together with the version list it parses to. */
  datatype Keyed = Keyed(version: seq<nat>, name: string)

  /** `reversed(s)`. */
  function Reverse<T>(s: seq<T>): (r: seq<T>)
    ensures |r| == |s|
    ensures forall i :: 0 <= i < |s| ==> r[i] == s[|s| - 1 - i]
    ensures multiset(r) == multiset(s)
  {
    if s == [] then []
    else
      assert s == [s[0]] + s[1..];
      Reverse(s[1..]) + [s[0]]
  }

  lemma ReverseReverse<T>(s: seq<T>)
    ensures Reverse(Reverse(s)) == s
  {
  }

  /** Non-decreasing in version, pair by pair. */
  predicate Ascending(s: seq<Keyed>) {
    forall i, j :: 0 <= i < j < |s| ==> AtMost(s[i].version, s[j].version)
  }

  /** Strictly decreasing in version: no two items tie. */
  predicate StrictlyDescending(s: seq<Keyed>) {
    forall i, j :: 0 <= i < j < |s| ==> Less(s[j].version, s[i].version)
  }

  /**
   * Put `x` after the items whose version is strictly smaller and before
   * all others, so it precedes every item it ties with.
   */
  function Insert(x: Keyed, s: seq<Keyed>): (r: seq<Keyed>)
    ensures |r| == |s| + 1
    ensures multiset(r) == multiset(s) + multiset{x}
  {
    if s == [] || !Less(s[0].version, x.version) then [x] + s
    else
      assert s == [s[0]] + s[1..];
      [s[0]] + Insert(x, s[1..])
  }

  lemma {:induction false} InsertAscending(x: Keyed, s: seq<Keyed>)
    requires Ascending(s)
    ensures Ascending(Insert(x, s))
  {
    var r := Insert(x, s);
    if s == [] || !Less(s[0].version, x.version) {
      forall j | 1 <= j < |r| ensures AtMost(x.version, r[j].version) {
        if j > 1 {
          AtMostTransitive(x.version, s[0].version, s[j - 1].version);
        }
      }
    } else {
      InsertAscending(x, s[1..]);
      var t := Insert(x, s[1..]);
      assert r == [s[0]] + t;
      forall j | 0 <= j < |t| ensures AtMost(s[0].version, t[j].version) {
        assert t[j] in multiset(t);
        if t[j] == x {
          LessAsymmetric(s[0].version, x.version);
        } else {
          assert t[j] in multiset(s[1..]);
          var k :| 0 <= k < |s[1..]| && s[1..][k] == t[j];
          assert s[k + 1] == t[j];
        }
      }
    }
  }

  /** The stable ascending sort: insertion sort from the back. */
  function SortAscending(s: seq<Keyed>): (r: seq<Keyed>)
    ensures multiset(r) == multiset(s)
    ensures Ascending(r)
  {
    if s == [] then []
    else
      assert s == [s[0]] + s[1..];
      InsertAscending(s[0], SortAscending(s[1..]));
      Insert(s[0], SortAscending(s[1..]))
  }

  /** The items of `s` whose version is `v`, in their order in `s`. */
  function Ties(s: seq<Keyed>, v: seq<nat>): seq<Keyed> {
    if s == [] then []
    else (if s[0].version == v then [s[0]] else []) + Ties(s[1..], v)
  }

  lemma {:induction false} TiesAppend(a: seq<Keyed>, b: seq<Keyed>, v: seq<nat>)
    ensures Ties(a + b, v) == Ties(a, v) + Ties(b, v)
  {
    if a != [] {
      assert (a + b)[1..] == a[1..] + b;
      TiesAppend(a[1..], b, v);
    } else {
      assert a + b == b;
    }
  }

  lemma {:induction false} InsertTies(x: Keyed, s: seq<Keyed>, v: seq<nat>)
    ensures Ties(Insert(x, s), v) == Ties([x] + s, v)
  {
    if s != [] && Less(s[0].version, x.version) {
      InsertTies(x, s[1..], v);
      assert ([s[0]] + Insert(x, s[1..]))[1..] == Insert(x, s[1..]);
      assert ([x] + s[1..])[1..] == s[1..];
      assert ([x] + s)[1..] == s;
      assert s == [s[0]] + s[1..];
      if s[0].version == v && x.version == v {
        LessIrreflexive(v);
      }
    }
  }

  /** The sort is stable: items with equal versions keep their relative order. */
  lemma {:induction false} SortStable(s: seq<Keyed>, v: seq<nat>)
    ensures Ties(SortAscending(s), v) == Ties(s, v)
  {
    if s != [] {
      SortStable(s[1..], v);
      InsertTies(s[0], SortAscending(s[1..]), v);
      assert ([s[0]] + SortAscending(s[1..]))[1..] == SortAscending(s[1..]);
    }
  }

  /** Reversing a list reverses the order of each group of ties. */
  lemma {:induction false} ReverseTies(s: seq<Keyed>, v: seq<nat>)
    ensures Ties(Reverse(s), v) == Reverse(Ties(s, v))
  {
    if s != [] {
      ReverseTies(s[1..], v);
      TiesAppend(Reverse(s[1..]), [s[0]], v);
      var head := if s[0].version == v then [s[0]] else [];
      assert Ties([s[0]], v) == head;
      assert Reverse(head + Ties(s[1..], v)) == Reverse(Ties(s[1..], v)) + head;
    }
  }

  lemma {:induction false} InsertLargest(x: Keyed, s: seq<Keyed>)
    requires forall i :: 0 <= i < |s| ==> Less(s[i].version, x.version)
    ensures Insert(x, s) == s + [x]
  {
    if s != [] {
      InsertLargest(x, s[1..]);
      assert s == [s[0]] + s[1..];
    }
  }

  /** Sorting a list that strictly descends just reverses it. */
  lemma {:induction false} SortStrictlyDescending(s: seq<Keyed>)
    requires StrictlyDescending(s)
    ensures SortAscending(s) == Reverse(s)
  {
    if s != [] {
      SortStrictlyDescending(s[1..]);
      InsertLargest(s[0], Reverse(s[1..]));
    }
  }
}
