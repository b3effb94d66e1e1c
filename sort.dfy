/** Ordering of strings as Go's `sort.Strings` uses it: lexicographic
    comparison (Go compares UTF-8 bytes, which orders strings exactly as
    comparing their code points does). `Sort` stands for the library sort by
    its documented result; `SortedSet` is the one strictly increasing
    listing of a set of strings. */
module Sort {

  /** Lexicographic "strictly less than". */
  predicate Less(a: string, b: string)
  {
    if |a| == 0 then |b| > 0
    else if |b| == 0 then false
    else if a[0] != b[0] then a[0] < b[0]
    else Less(a[1..], b[1..])
  }

  lemma {:induction false} LessIrreflexive(a: string)
    ensures !Less(a, a)
  {
    if |a| > 0 {
      LessIrreflexive(a[1..]);
    }
  }

  lemma {:induction false} LessTransitive(a: string, b: string, c: string)
    requires Less(a, b) && Less(b, c)
    ensures Less(a, c)
  {
    if |a| > 0 && a[0] == b[0] && b[0] == c[0] {
      LessTransitive(a[1..], b[1..], c[1..]);
    }
  }

  /** Any two distinct strings are ordered one way, and never both ways. */
  lemma {:induction false} LessTotal(a: string, b: string)
    ensures a != b <==> Less(a, b) || Less(b, a)
    ensures !(Less(a, b) && Less(b, a))
  {
    if |a| > 0 && |b| > 0 && a[0] == b[0] {
      LessTotal(a[1..], b[1..]);
      if a[1..] == b[1..] {
        assert a == [a[0]] + a[1..] && b == [b[0]] + b[1..];
      }
    } else if a == b {
      LessIrreflexive(a);
    }
  }

  predicate StrictlySorted(s: seq<string>)
  {
    forall i, j :: 0 <= i < j < |s| ==> Less(s[i], s[j])
  }

  /** Inserts `x` before the first element that is not less than it. */
  function Insert(s: seq<string>, x: string): (r: seq<string>)
    ensures multiset(r) == multiset(s) + multiset{x}
    ensures StrictlySorted(s) && x !in s ==> StrictlySorted(r)
  {
    if |s| == 0 then [x]
    else if Less(x, s[0]) then
      var r := [x] + s;
      assert StrictlySorted(s) ==> StrictlySorted(r) by {
        if StrictlySorted(s) {
          forall j | 1 <= j < |r| ensures Less(x, r[j]) {
            if j > 1 { LessTransitive(x, s[0], s[j - 1]); }
          }
        }
      }
      r
    else
      var tail := Insert(s[1..], x);
      var r := [s[0]] + tail;
      assert s == [s[0]] + s[1..];
      assert StrictlySorted(s) && x !in s ==> StrictlySorted(r) by {
        if StrictlySorted(s) && x !in s {
          LessTotal(x, s[0]);
          forall j | 0 <= j < |tail| ensures Less(s[0], tail[j]) {
            assert tail[j] in multiset(tail);
            if tail[j] != x {
              assert tail[j] in multiset(s[1..]);
              var k :| 0 <= k < |s[1..]| && s[1..][k] == tail[j];
              assert s[k + 1] == tail[j];
            }
          }
        }
      }
      r
  }

  /** Insertion sort: what `sort.Strings` leaves in the slice, as a value. */
  function Sort(s: seq<string>): (r: seq<string>)
    ensures multiset(r) == multiset(s)
    ensures Distinct(s) ==> StrictlySorted(r)
  {
    if |s| == 0 then []
    else
      var prefix, last := s[..|s| - 1], s[|s| - 1];
      var sorted := Sort(prefix);
      SortStep(s, prefix, last);
      assert Distinct(s) ==> last !in sorted by {
        if Distinct(s) {
          assert last !in multiset(prefix);
          assert last !in multiset(sorted);
        }
      }
      Insert(sorted, last)
  }

  predicate Distinct(s: seq<string>)
  {
    forall i, j :: 0 <= i < j < |s| ==> s[i] != s[j]
  }

  lemma SortStep(s: seq<string>, prefix: seq<string>, last: string)
    requires |s| > 0 && prefix == s[..|s| - 1] && last == s[|s| - 1]
    ensures multiset(s) == multiset(prefix) + multiset{last}
    ensures Distinct(s) ==> Distinct(prefix) && last !in prefix
  {
    assert s == prefix + [last];
  }

  /** Every non-empty finite set of strings has a least element. */
  lemma LeastExists(ks: set<string>)
    requires ks != {}
    ensures exists m :: m in ks && forall x :: x in ks && x != m ==> Less(m, x)
  {
    var m := Least(ks);
  }

  /** The least element of a non-empty finite set of strings. */
  lemma {:induction false} Least(ks: set<string>) returns (m: string)
    requires ks != {}
    ensures m in ks && forall x :: x in ks && x != m ==> Less(m, x)
  {
    var y :| y in ks;
    var rest := ks - {y};
    if rest == {} {
      assert ks == {y};
      m := y;
    } else {
      var n := Least(rest);
      LessTotal(n, y);
      if Less(n, y) {
        m := n;
      } else {
        m := y;
        forall x | x in ks && x != y ensures Less(y, x) {
          if x != n {
            assert x in rest;
            LessTransitive(y, n, x);
          }
        }
      }
    }
  }

  /** The elements of `ks` in strictly increasing order. */
  ghost function SortedSet(ks: set<string>): (r: seq<string>)
    ensures StrictlySorted(r)
    ensures forall x :: x in r <==> x in ks
    ensures |r| == |ks|
    decreases ks
  {
    if ks == {} then []
    else
      LeastExists(ks);
      var m :| m in ks && forall x :: x in ks && x != m ==> Less(m, x);
      var rest := SortedSet(ks - {m});
      var r := [m] + rest;
      assert forall j :: 0 <= j < |rest| ==> Less(m, rest[j]) by {
        forall j | 0 <= j < |rest| ensures Less(m, rest[j]) {
          assert rest[j] in ks - {m};
        }
      }
      r
  }

  /** A strictly increasing sequence is determined by its elements. */
  lemma {:induction false} StrictlySortedUnique(s: seq<string>, t: seq<string>)
    requires StrictlySorted(s) && StrictlySorted(t)
    requires forall x :: x in s <==> x in t
    ensures s == t
  {
    assert |s| > 0 ==> s[0] in t;
    assert |t| > 0 ==> t[0] in s;
    if |s| > 0 && |t| > 0 {
      assert s[0] == t[0] by {
        assert s[0] in t && t[0] in s;
        LessTotal(s[0], t[0]);
      }
      forall x ensures x in s[1..] <==> x in t[1..] {
        if x in s[1..] {
          var k :| 1 <= k < |s| && s[k] == x;
          LessIrreflexive(x);
          assert x in s;
          var k' :| 0 <= k' < |t| && t[k'] == x;
          assert k' != 0;
          assert t[1..][k' - 1] == x;
        }
        if x in t[1..] {
          var k :| 1 <= k < |t| && t[k] == x;
          LessIrreflexive(x);
          assert x in t;
          var k' :| 0 <= k' < |s| && s[k'] == x;
          assert k' != 0;
          assert s[1..][k' - 1] == x;
        }
      }
      StrictlySortedUnique(s[1..], t[1..]);
      assert s == [s[0]] + s[1..] && t == [t[0]] + t[1..];
    }
  }

  /** Sorting any duplicate-free listing of `ks` gives `SortedSet(ks)`:
      the result does not depend on the order the keys were listed in. */
  lemma SortIsCanonical(s: seq<string>, ks: set<string>)
    requires Distinct(s)
    requires forall x :: x in s <==> x in ks
    ensures Sort(s) == SortedSet(ks)
  {
    var r := Sort(s);
    forall x ensures x in r <==> x in ks {
      assert x in r <==> x in multiset(r);
      assert x in s <==> x in multiset(s);
    }
    StrictlySortedUnique(r, SortedSet(ks));
  }
}
