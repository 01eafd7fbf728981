// Searching in strings and sorting them; they are sequences of the bytes of the Go string.
module ByteStrings {

  /** The position of the first c, or -1. */
  function FirstIndex(s: string, c: char): (i: int)
    ensures i == -1 <==> c !in s
    ensures i != -1 ==> 0 <= i < |s| && s[i] == c && c !in s[..i]
  {
    if s == [] then -1
    else if s[0] == c then 0
    else
      var i := FirstIndex(s[1..], c);
      if i == -1 then -1
      else
        assert s[..i + 1] == [s[0]] + s[1..][..i];
        i + 1
  }

  lemma FirstIndexUnique(s: string, c: char, i: nat)
    requires i < |s| && s[i] == c && c !in s[..i]
    ensures FirstIndex(s, c) == i
  {
    var j := FirstIndex(s, c);
    forall k | 0 <= k < i ensures s[k] != c {
      assert s[k] in s[..i];
    }
    assert c in s;
    forall k | 0 <= k < j ensures s[k] != c {
      assert s[k] in s[..j];
    }
  }

  lemma SplitAt(a: string, c: char, b: string)
    requires c !in a
    ensures FirstIndex(a + [c] + b, c) == |a|
    ensures (a + [c] + b)[..|a|] == a && (a + [c] + b)[|a| + 1..] == b
  {
    assert (a + [c] + b)[..|a|] == a;
    FirstIndexUnique(a + [c] + b, c, |a|);
  }

  // ---- the order of sort.Strings

  predicate AtMost(a: string, b: string) {
    a == [] || (b != [] && (a[0] < b[0] || (a[0] == b[0] && AtMost(a[1..], b[1..]))))
  }

  lemma {:induction false} AtMostIsTotal(a: string, b: string)
    ensures AtMost(a, b) || AtMost(b, a)
    ensures AtMost(a, b) && AtMost(b, a) ==> a == b
  {
    if a != [] && b != [] && a[0] == b[0] {
      AtMostIsTotal(a[1..], b[1..]);
      assert a == [a[0]] + a[1..] && b == [b[0]] + b[1..];
    }
  }

  lemma {:induction false} AtMostIsTransitive(a: string, b: string, c: string)
    requires AtMost(a, b) && AtMost(b, c)
    ensures AtMost(a, c)
  {
    if a != [] && a[0] == b[0] == c[0] {
      AtMostIsTransitive(a[1..], b[1..], c[1..]);
    }
  }

  ghost predicate Ascending(ss: seq<string>) {
    forall i, j | 0 <= i < j < |ss| :: AtMost(ss[i], ss[j])
  }

  function Inserted(ss: seq<string>, x: string): seq<string> {
    if ss == [] || AtMost(x, ss[0]) then [x] + ss else [ss[0]] + Inserted(ss[1..], x)
  }

  lemma FirstIsLeast(ss: seq<string>, x: string)
    requires Ascending(ss) && x in ss
    ensures AtMost(ss[0], x)
  {
    AtMostIsTotal(x, x);
    hide AtMost;
    var i :| 0 <= i < |ss| && ss[i] == x;
  }

  lemma AscendingWithFirst(x: string, ss: seq<string>)
    requires Ascending(ss) && forall y | y in ss :: AtMost(x, y)
    ensures Ascending([x] + ss)
  {
    hide AtMost;
    var all := [x] + ss;
    forall i, j | 0 <= i < j < |all| ensures AtMost(all[i], all[j]) {
      assert all[j] == ss[j - 1] && ss[j - 1] in ss;
      if i > 0 {
        assert all[i] == ss[i - 1];
      }
    }
  }

  lemma AscendingWithoutFirst(ss: seq<string>)
    requires Ascending(ss) && ss != []
    ensures Ascending(ss[1..])
  {
    hide AtMost;
    forall i, j | 0 <= i < j < |ss| - 1 ensures AtMost(ss[1..][i], ss[1..][j]) {
      assert AtMost(ss[i + 1], ss[j + 1]);
    }
  }

  lemma FirstApart(ss: seq<string>)
    requires ss != []
    ensures ss == [ss[0]] + ss[1..] && multiset(ss) == multiset{ss[0]} + multiset(ss[1..])
    ensures multiset(ss[1..]) == multiset(ss) - multiset{ss[0]}
  {
    assert ss == [ss[0]] + ss[1..];
  }

  lemma {:induction false} InsertedAscends(ss: seq<string>, x: string)
    requires Ascending(ss)
    ensures multiset(Inserted(ss, x)) == multiset(ss) + multiset{x} && Ascending(Inserted(ss, x))
  {
    hide AtMost, Ascending;
    if ss == [] {
      AscendingWithFirst(x, ss);
    } else {
      FirstApart(ss);
      if AtMost(x, ss[0]) {
        forall y | y in ss ensures AtMost(x, y) {
          FirstIsLeast(ss, y);
          AtMostIsTransitive(x, ss[0], y);
        }
        AscendingWithFirst(x, ss);
      } else {
        AscendingWithoutFirst(ss);
        InsertedAscends(ss[1..], x);
        var r := Inserted(ss[1..], x);
        forall y | y in r ensures AtMost(ss[0], y) {
          AtMostIsTotal(x, ss[0]);
          assert y in multiset(r);
          if y != x {
            FirstIsLeast(ss, y);
          }
        }
        AscendingWithFirst(ss[0], r);
      }
    }
  }

  /** What sort.Strings promises. */
  method SortStrings(ss: seq<string>) returns (sorted: seq<string>)
    ensures Ascending(sorted) && multiset(sorted) == multiset(ss)
  {
    hide AtMost, Ascending, Inserted;
    sorted := [];
    NothingAscends();
    for i := 0 to |ss|
      invariant Ascending(sorted) && multiset(sorted) == multiset(ss[..i])
    {
      assert ss[..i + 1] == ss[..i] + [ss[i]];
      InsertedAscends(sorted, ss[i]);
      sorted := Inserted(sorted, ss[i]);
    }
    assert ss[..|ss|] == ss;
  }

  lemma NothingAscends()
    ensures Ascending([])
  {
  }

  /** There is one such order. */
  lemma {:induction false} AscendingIsUnique(a: seq<string>, b: seq<string>)
    requires Ascending(a) && Ascending(b) && multiset(a) == multiset(b)
    ensures a == b
  {
    hide AtMost, Ascending;
    assert |multiset(a)| == |a| && |multiset(b)| == |b|;
    if a != [] {
      SameFirst(a, b);
      FirstApart(a);
      FirstApart(b);
      AscendingWithoutFirst(a);
      AscendingWithoutFirst(b);
      AscendingIsUnique(a[1..], b[1..]);
    }
  }

  lemma SameFirst(a: seq<string>, b: seq<string>)
    requires Ascending(a) && Ascending(b) && multiset(a) == multiset(b) && a != [] && b != []
    ensures a[0] == b[0]
  {
    hide AtMost, Ascending;
    assert a[0] in multiset(b) && b[0] in multiset(a);
    FirstIsLeast(a, b[0]);
    FirstIsLeast(b, a[0]);
    AtMostIsTotal(a[0], b[0]);
  }
}
