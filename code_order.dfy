/** The ordering Python uses on `str` values (lexicographic by code point) and
    `sorted` applied to a set of codes. */
module CodeOrder {

  /** `a < b` on Python strings: the first differing character decides, and a
      proper prefix comes first. */
  predicate Less(a: string, b: string)
    decreases |a|
  {
    if a == [] then b != []
    else if b == [] then false
    else a[0] < b[0] || (a[0] == b[0] && Less(a[1..], b[1..]))
  }

  lemma {:induction false} LessIrreflexive(a: string)
    ensures !Less(a, a)
    decreases |a|
  {
    if a != [] {
      LessIrreflexive(a[1..]);
    }
  }

  lemma {:induction false} LessTransitive(a: string, b: string, c: string)
    requires Less(a, b) && Less(b, c)
    ensures Less(a, c)
    decreases |a|
  {
    if a != [] && a[0] == b[0] && b[0] == c[0] {
      LessTransitive(a[1..], b[1..], c[1..]);
    }
  }

  lemma {:induction false} LessTotal(a: string, b: string)
    requires a != b
    ensures Less(a, b) || Less(b, a)
    decreases |a|
  {
    if a != [] && b != [] && a[0] == b[0] {
      assert a == [a[0]] + a[1..] && b == [b[0]] + b[1..];
      LessTotal(a[1..], b[1..]);
    }
  }

  /** Every element is below every later one: sorted, without duplicates. */
  predicate StrictlySorted(s: seq<string>) {
    forall i, j :: 0 <= i < j < |s| ==> Less(s[i], s[j])
  }

  /** Inserting into a strictly sorted sequence keeps it strictly sorted and
      adds exactly `x`. */
  function Insert(s: seq<string>, x: string): (r: seq<string>)
    requires StrictlySorted(s)
    ensures StrictlySorted(r)
    ensures forall y :: y in r <==> y in s || y == x
    decreases |s|
  {
    if s == [] then [x]
    else if x == s[0] then s
    else if Less(x, s[0]) then
      assert forall j :: 0 < j < |s| ==> Less(x, s[j]) by {
        forall j | 0 < j < |s| { LessTransitive(x, s[0], s[j]); }
      }
      [x] + s
    else
      LessTotal(x, s[0]);
      var rest := Insert(s[1..], x);
      assert forall y :: y in s[1..] ==> Less(s[0], y);
      [s[0]] + rest
  }

  /** Two strictly sorted sequences with the same elements are equal: the
      sorted order of a set is unique. */
  lemma {:induction false} SortedUnique(s: seq<string>, t: seq<string>)
    requires StrictlySorted(s) && StrictlySorted(t)
    requires forall x :: x in s <==> x in t
    ensures s == t
    decreases |s|
  {
    assert |s| == 0 <==> |t| == 0 by {
      if |s| > 0 { assert s[0] in t; }
      if |t| > 0 { assert t[0] in s; }
    }
    if s != [] {
      if s[0] != t[0] {
        assert t[0] in s && s[0] in t;
        var i :| 0 <= i < |s| && s[i] == t[0];
        var j :| 0 <= j < |t| && t[j] == s[0];
        assert Less(s[0], t[0]);
        assert Less(t[0], s[0]);
        LessTransitive(s[0], t[0], s[0]);
        LessIrreflexive(s[0]);
      }
      forall x ensures x in s[1..] <==> x in t[1..] {
        if x in s[1..] {
          var i :| 0 <= i < |s| - 1 && s[1..][i] == x;
          assert Less(s[0], s[i + 1]);
          LessIrreflexive(s[0]);
          assert x in t && x != t[0];
          var j :| 0 <= j < |t| && t[j] == x;
          assert t[1..][j - 1] == x;
        }
        if x in t[1..] {
          var j :| 0 <= j < |t| - 1 && t[1..][j] == x;
          assert Less(t[0], t[j + 1]);
          LessIrreflexive(t[0]);
          assert x in s && x != s[0];
          var i :| 0 <= i < |s| && s[i] == x;
          assert s[1..][i - 1] == x;
        }
      }
      SortedUnique(s[1..], t[1..]);
      assert s == [s[0]] + s[1..] && t == [t[0]] + t[1..];
    }
  }

  /** `sorted(list(codes))`: the codes of a set in ascending order. The set's
      own iteration order is arbitrary; by `SortedUnique` the result is not. */
  method SortCodes(codes: set<string>) returns (sorted: seq<string>)
    ensures StrictlySorted(sorted)
    ensures forall c :: c in sorted <==> c in codes
  {
    sorted := [];
    var remaining := codes;
    while remaining != {}
      invariant remaining <= codes
      invariant StrictlySorted(sorted)
      invariant forall c :: c in sorted <==> c in codes && c !in remaining
      decreases remaining
    {
      var c :| c in remaining;
      sorted := Insert(sorted, c);
      remaining := remaining - {c};
    }
  }
}
