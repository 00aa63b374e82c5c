/** Lists grown by "add if not already there" (List<T>.Contains, then Add), and
    the order such a list ends up in. */
module Dedup {

  ghost predicate NoDuplicates<T>(s: seq<T>)
  {
    forall i, j :: 0 <= i < j < |s| ==> s[i] != s[j]
  }

  /** Appends `x` unless `s` already holds it. */
  function AddOnce<T(==)>(s: seq<T>, x: T): (r: seq<T>)
    ensures x in r && s <= r && |r| <= |s| + 1
    ensures x in s ==> r == s
    ensures NoDuplicates(s) ==> NoDuplicates(r)
    ensures forall i :: 0 <= i < |r| ==> r[i] in s || r[i] == x
  {
    if x in s then s else s + [x]
  }

  /** Adds each element of `xs`, left to right, with AddOnce. */
  function AddAll<T(==)>(s: seq<T>, xs: seq<T>): seq<T>
  {
    if xs == [] then s else AddOnce(AddAll(s, xs[..|xs| - 1]), xs[|xs| - 1])
  }

  /** Position of the first occurrence of `x` in `s`. */
  function IndexOf<T(==)>(s: seq<T>, x: T): (i: nat)
    requires x in s
    ensures i < |s| && s[i] == x && x !in s[..i]
  {
    if s[0] == x then 0 else 1 + IndexOf(s[1..], x)
  }

  /** Every element of `r` occurs in `s`, and `r` lists them in the order of their
      first occurrences in `s`. */
  ghost predicate InFirstSeenOrder<T>(r: seq<T>, s: seq<T>)
  {
    && (forall x :: x in r ==> x in s)
    && forall i, j :: 0 <= i < j < |r| ==> IndexOf(s, r[i]) < IndexOf(s, r[j])
  }

  lemma IndexOfPrefix<T>(s: seq<T>, t: seq<T>, x: T)
    requires x in s
    ensures IndexOf(s + t, x) == IndexOf(s, x)
  {
    var i := IndexOf(s, x);
    assert (s + t)[i] == x;
    assert (s + t)[..i] == s[..i];
    IndexOfUnique(s + t, x, i);
  }

  lemma IndexOfUnique<T>(s: seq<T>, x: T, i: nat)
    requires i < |s| && s[i] == x && x !in s[..i]
    ensures IndexOf(s, x) == i
  {
  }

  /** Adding to a list leaves what it already held in place. */
  lemma {:induction false} AddAllExtends<T>(s: seq<T>, xs: seq<T>)
    ensures |s| <= |AddAll(s, xs)| && AddAll(s, xs)[..|s|] == s
  {
    if xs != [] {
      AddAllExtends(s, xs[..|xs| - 1]);
    }
  }

  /** Adding `a` then `b` is adding `a + b`. */
  lemma {:induction false} AddAllAppend<T>(s: seq<T>, a: seq<T>, b: seq<T>)
    ensures AddAll(s, a + b) == AddAll(AddAll(s, a), b)
  {
    if b == [] {
      assert a + b == a;
    } else {
      var n := |b|;
      assert (a + b)[..|a + b| - 1] == a + b[..n - 1];
      assert (a + b)[|a + b| - 1] == b[n - 1];
      AddAllAppend(s, a, b[..n - 1]);
    }
  }

  /** The result of adding `xs` to a duplicate-free `s`: duplicate-free, holding
      exactly the elements of `s` and `xs`, starting with `s`, and in the order in
      which `s + xs` first mentions each element. */
  lemma {:induction false} AddAllFirstSeen<T>(s: seq<T>, xs: seq<T>)
    requires NoDuplicates(s)
    ensures NoDuplicates(AddAll(s, xs))
    ensures forall x :: x in AddAll(s, xs) <==> x in s || x in xs
    ensures InFirstSeenOrder(AddAll(s, xs), s + xs)
  {
    if xs == [] {
      assert s + xs == s;
      forall i, j | 0 <= i < j < |s| ensures IndexOf(s, s[i]) < IndexOf(s, s[j]) {
        assert s[i] !in s[..i];
        IndexOfUnique(s, s[i], i);
        assert s[j] !in s[..j];
        IndexOfUnique(s, s[j], j);
      }
    } else {
      var n := |xs|;
      var p, x := xs[..n - 1], xs[n - 1];
      var r0 := AddAll(s, p);
      AddAllFirstSeen(s, p);
      assert xs == p + [x];
      assert s + xs == (s + p) + [x];
      forall y | y in r0 ensures IndexOf(s + xs, y) == IndexOf(s + p, y) {
        IndexOfPrefix(s + p, [x], y);
      }
      if x !in r0 {
        assert x !in s + p;
        IndexOfUnique(s + xs, x, |s + p|);
        assert (s + xs)[..|s + p|] == s + p;
        assert AddAll(s, xs) == r0 + [x];
      }
    }
  }

  lemma FirstSeenTail<T>(r: seq<T>, s: seq<T>)
    requires r != [] && NoDuplicates(r) && InFirstSeenOrder(r, s)
    ensures NoDuplicates(r[1..]) && InFirstSeenOrder(r[1..], s)
  {
    var t := r[1..];
    assert forall x :: x in t ==> x in r;
    forall i, j | 0 <= i < j < |t| ensures IndexOf(s, t[i]) < IndexOf(s, t[j]) {
      assert t[i] == r[i + 1] && t[j] == r[j + 1];
    }
  }

  lemma NothingInEmpty<T>(r: seq<T>)
    ensures (forall x :: x !in r) ==> r == []
  {
    if r != [] {
      assert r[0] in r;
    }
  }

  lemma SameTails<T>(r1: seq<T>, r2: seq<T>)
    requires r1 != [] && r2 != [] && r1[0] == r2[0]
    requires NoDuplicates(r1) && NoDuplicates(r2)
    requires forall x :: x in r1 <==> x in r2
    ensures forall x :: x in r1[1..] <==> x in r2[1..]
  {
    forall x ensures x in r1[1..] ==> x in r2[1..] {
      if x in r1[1..] {
        var i :| 0 <= i < |r1| - 1 && r1[1..][i] == x;
        assert r1[i + 1] == x && x in r2;
        var j :| 0 <= j < |r2| && r2[j] == x;
        assert j != 0 && r2[1..][j - 1] == x;
      }
    }
    forall x ensures x in r2[1..] ==> x in r1[1..] {
      if x in r2[1..] {
        var j :| 0 <= j < |r2| - 1 && r2[1..][j] == x;
        assert r2[j + 1] == x && x in r1;
        var i :| 0 <= i < |r1| && r1[i] == x;
        assert i != 0 && r1[1..][i - 1] == x;
      }
    }
  }

  lemma FirstSeenHead<T>(r1: seq<T>, r2: seq<T>, s: seq<T>)
    requires r1 != []
    requires forall x :: x in r1 <==> x in r2
    requires InFirstSeenOrder(r1, s) && InFirstSeenOrder(r2, s)
    ensures r2 != [] && r1[0] == r2[0]
  {
    assert r1[0] in r1;
    assert r2[0] in r2;
  }

  /** Two duplicate-free lists of the same elements, both in first-seen order of the
      same sequence, are equal: first-seen order determines the list. */
  lemma {:induction false} FirstSeenUnique<T>(r1: seq<T>, r2: seq<T>, s: seq<T>)
    requires NoDuplicates(r1) && NoDuplicates(r2)
    requires forall x :: x in r1 <==> x in r2
    requires InFirstSeenOrder(r1, s) && InFirstSeenOrder(r2, s)
    ensures r1 == r2
    decreases |r1|
  {
    if r1 == [] {
      NothingInEmpty(r2);
    } else {
      FirstSeenHead(r1, r2, s);
      var t1, t2 := r1[1..], r2[1..];
      SameTails(r1, r2);
      FirstSeenTail(r1, s);
      FirstSeenTail(r2, s);
      FirstSeenUnique(t1, t2, s);
      assert r1 == [r1[0]] + t1 && r2 == [r2[0]] + t2;
    }
  }
}
