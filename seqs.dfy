/** Facts about sequences of keys (and of list nodes) that the cache relies on. */
module Seqs {

  /** No element occurs twice in `s`. */
  ghost predicate NoDup<T>(s: seq<T>)
  {
    forall i, j :: 0 <= i < j < |s| ==> s[i] != s[j]
  }

  /**
   * The position of `x` in `s`. A linked list unlinks a node through its own
   * links; with the list kept as a sequence, this finds where the node is.
   */
  function IndexOf<T(==)>(s: seq<T>, x: T): (i: nat)
    requires x in s
    ensures i < |s| && s[i] == x
    ensures x !in s[..i]
  {
    if s[0] == x then 0 else 1 + IndexOf(s[1..], x)
  }

  /** `s` with `x` taken out, every other element kept in its order. */
  function Without<T(==)>(s: seq<T>, x: T): (r: seq<T>)
    ensures |r| <= |s|
  {
    if s == [] then []
    else if s[0] == x then Without(s[1..], x)
    else [s[0]] + Without(s[1..], x)
  }

  /** What `Without` keeps: exactly the elements of `s` other than `x`. */
  lemma {:induction false} WithoutMembers<T>(s: seq<T>, x: T)
    ensures forall i :: 0 <= i < |Without(s, x)| ==> Without(s, x)[i] in s && Without(s, x)[i] != x
    ensures forall i :: 0 <= i < |s| && s[i] != x ==> s[i] in Without(s, x)
  {
    if s != [] {
      WithoutMembers(s[1..], x);
      var w := Without(s[1..], x);
      forall i | 0 <= i < |s| && s[i] != x ensures s[i] in Without(s, x) {
        if i > 0 {
          assert s[i] == s[1..][i - 1];
        }
      }
      forall i | 0 <= i < |Without(s, x)| ensures Without(s, x)[i] in s && Without(s, x)[i] != x {
        if s[0] != x && i == 0 {
        } else {
          var m := if s[0] == x then i else i - 1;
          assert Without(s, x)[i] == w[m];
          assert w[m] in s[1..];
        }
      }
    }
  }

  lemma {:induction false} WithoutAbsent<T>(s: seq<T>, x: T)
    requires x !in s
    ensures Without(s, x) == s
  {
    if s != [] {
      WithoutAbsent(s[1..], x);
      assert s == [s[0]] + s[1..];
    }
  }

  lemma NoDupTail<T>(s: seq<T>)
    requires NoDup(s) && s != []
    ensures NoDup(s[1..]) && s[0] !in s[1..]
  {
  }

  /** Removing an element that occurs once closes the gap and keeps the relative order of the rest. */
  lemma {:induction false} WithoutAt<T>(s: seq<T>, i: nat)
    requires NoDup(s) && i < |s|
    ensures Without(s, s[i]) == s[..i] + s[i + 1..]
  {
    NoDupTail(s);
    if i == 0 {
      WithoutAbsent(s[1..], s[0]);
    } else {
      var t := s[1..];
      assert s[0] != s[i];
      assert t[i - 1] == s[i];
      calc {
        Without(s, s[i]);
        [s[0]] + Without(t, t[i - 1]);
        { WithoutAt(t, i - 1); }
        [s[0]] + (t[..i - 1] + t[i..]);
        { assert t[..i - 1] == s[1..i] && t[i..] == s[i + 1..]; }
        [s[0]] + s[1..i] + s[i + 1..];
        { assert [s[0]] + s[1..i] == s[..i]; }
        s[..i] + s[i + 1..];
      }
    }
  }

  /** Taking an element out distributes over concatenation. */
  lemma {:induction false} WithoutConcat<T>(a: seq<T>, b: seq<T>, x: T)
    ensures Without(a + b, x) == Without(a, x) + Without(b, x)
  {
    if a == [] {
      assert a + b == b;
    } else {
      assert (a + b)[0] == a[0];
      assert (a + b)[1..] == a[1..] + b;
      WithoutConcat(a[1..], b, x);
    }
  }

  /** Taking out the last element, when it occurs nowhere else, gives back the prefix. */
  lemma WithoutSnoc<T>(w: seq<T>, x: T)
    requires x !in w
    ensures Without(w + [x], x) == w
  {
    WithoutConcat(w, [x], x);
    WithoutAbsent(w, x);
    assert Without([x], x) == [];
  }

  lemma {:induction false} NoDupWithout<T>(s: seq<T>, x: T)
    requires NoDup(s)
    ensures NoDup(Without(s, x))
  {
    if x in s {
      var i := IndexOf(s, x);
      WithoutAt(s, i);
      var r := s[..i] + s[i + 1..];
      forall a, b | 0 <= a < b < |r| ensures r[a] != r[b] {
        var a' := if a < i then a else a + 1;
        var b' := if b < i then b else b + 1;
        assert r[a] == s[a'] && r[b] == s[b'];
      }
    } else {
      WithoutAbsent(s, x);
    }
  }

  /** A duplicate-free sequence and the set of its elements have the same size. */
  lemma {:induction false} NoDupCard<T>(s: seq<T>, elems: set<T>)
    requires NoDup(s)
    requires forall x :: x in elems <==> x in s
    ensures |elems| == |s|
  {
    if s == [] {
      assert elems == {};
    } else {
      var rest := elems - {s[0]};
      NoDupTail(s);
      forall x ensures x in rest <==> x in s[1..] {
        if x in s[1..] {
          var j :| 0 <= j < |s[1..]| && s[1..][j] == x;
          assert s[j + 1] == x;
        }
        assert x in s ==> x == s[0] || x in s[1..] by {
          assert s == [s[0]] + s[1..];
        }
      }
      NoDupCard(s[1..], rest);
    }
  }
}
