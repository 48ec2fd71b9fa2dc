/**
 The like toggle of `GET /like/:postId`: a post's `likes` array is scanned
 with `indexOf`; an absent identifier is pushed at the end, a present one is
 spliced out at its first position.
 */
module Likes {

  /** No element occurs twice in `s`. */
  predicate NoDup<T(==)>(s: seq<T>) {
    forall i, j :: 0 <= i < j < |s| ==> s[i] != s[j]
  }

  /** Array `indexOf`: the position of the first occurrence of `x`, or -1. */
  function IndexOf<T(==)>(s: seq<T>, x: T): (i: int)
    ensures i == -1 <==> x !in s
    ensures i != -1 ==> 0 <= i < |s| && s[i] == x && forall k :: 0 <= k < i ==> s[k] != x
  {
    if |s| == 0 then -1
    else if s[0] == x then 0
    else
      var j := IndexOf(s[1..], x);
      if j == -1 then -1 else j + 1
  }

  /** Array `splice(i, 1)`: drop the element at position `i`. */
  function RemoveAt<T>(s: seq<T>, i: nat): (r: seq<T>)
    requires i < |s|
    ensures |r| == |s| - 1
    ensures forall k :: 0 <= k < i ==> r[k] == s[k]
    ensures forall k :: i <= k < |r| ==> r[k] == s[k + 1]
  {
    s[..i] + s[i + 1..]
  }

  /** The toggle of `x` in `likes`, in the order the handler performs it. */
  function Toggle<T(==)>(likes: seq<T>, x: T): (r: seq<T>)
    ensures x !in likes ==> r == likes + [x]
    ensures x in likes ==> |r| == |likes| - 1 && multiset(r) == multiset(likes) - multiset{x}
  {
    if IndexOf(likes, x) == -1 then
      likes + [x]
    else
      var i := IndexOf(likes, x);
      assert likes == likes[..i] + [x] + likes[i + 1..];
      RemoveAt(likes, i)
  }

  /** An identifier that is present is removed at its first occurrence and
      every other element keeps its relative order. */
  lemma TogglePresent<T>(likes: seq<T>, x: T, i: nat)
    requires i < |likes| && likes[i] == x && x !in likes[..i]
    ensures Toggle(likes, x) == likes[..i] + likes[i + 1..]
  {
  }

  /** After the toggle, `x` is a member exactly when it was not one before,
      and membership of every other element is unchanged. */
  lemma ToggleMembership<T>(likes: seq<T>, x: T, y: T)
    requires NoDup(likes)
    ensures y in Toggle(likes, x) <==> (if y == x then x !in likes else y in likes)
  {
  }

  /** The toggle keeps a likes list free of duplicates. */
  lemma ToggleKeepsNoDup<T>(likes: seq<T>, x: T)
    requires NoDup(likes)
    ensures NoDup(Toggle(likes, x))
  {
    if x in likes {
      var i := IndexOf(likes, x);
      var r := Toggle(likes, x);
      forall a, b | 0 <= a < b < |r|
        ensures r[a] != r[b]
      {
        // positions in `r` map back to distinct positions in `likes`
        var a' := if a < i then a else a + 1;
        var b' := if b < i then b else b + 1;
        assert r[a] == likes[a'] && r[b] == likes[b'];
      }
    }
  }

  /** Liking and then unliking from the unliked state restores the exact list. */
  lemma ToggleTwiceAbsent<T>(likes: seq<T>, x: T)
    requires x !in likes
    ensures Toggle(Toggle(likes, x), x) == likes
  {
  }

  /** Unliking and then liking again from the liked state restores the same
      set of identifiers, with `x` moved to the end. */
  lemma ToggleTwicePresent<T>(likes: seq<T>, x: T, i: nat)
    requires NoDup(likes)
    requires i < |likes| && likes[i] == x
    ensures Toggle(Toggle(likes, x), x) == likes[..i] + likes[i + 1..] + [x]
    ensures forall y :: y in Toggle(Toggle(likes, x), x) <==> y in likes
  {
  }

  /** Reference definition of "the likes without `x`": every element other
      than `x`, in order. */
  function Without<T(==)>(s: seq<T>, x: T): (r: seq<T>)
    ensures x !in r
    ensures forall y :: y in r ==> y in s
    ensures forall y :: y in s && y != x ==> y in r
    ensures |r| <= |s|
  {
    if |s| == 0 then []
    else if s[0] == x then Without(s[1..], x)
    else [s[0]] + Without(s[1..], x)
  }

  /** Dropping an absent `x` changes nothing. */
  lemma {:induction false} WithoutAbsent<T>(s: seq<T>, x: T)
    requires x !in s
    ensures Without(s, x) == s
  {
    if |s| > 0 {
      WithoutAbsent(s[1..], x);
    }
  }

  /** `Without` distributes over concatenation. */
  lemma {:induction false} WithoutConcat<T>(a: seq<T>, b: seq<T>, x: T)
    ensures Without(a + b, x) == Without(a, x) + Without(b, x)
  {
    if |a| > 0 {
      assert (a + b)[1..] == a[1..] + b;
      WithoutConcat(a[1..], b, x);
    } else {
      assert a + b == b;
    }
  }

  /** In a duplicate-free list the element at `i` occurs neither before nor after `i`. */
  lemma NoDupSplit<T>(s: seq<T>, i: nat)
    requires NoDup(s) && i < |s|
    ensures s[i] !in s[..i] && s[i] !in s[i + 1..]
  {
    var before, after := s[..i], s[i + 1..];
    forall k | 0 <= k < |before|
      ensures before[k] != s[i]
    {
      assert before[k] == s[k];
    }
    forall k | 0 <= k < |after|
      ensures after[k] != s[i]
    {
      assert after[k] == s[i + 1 + k];
    }
  }

  /** Dropping the only occurrence of `x` leaves the rest in order. */
  lemma WithoutOnly<T>(before: seq<T>, x: T, after: seq<T>)
    requires x !in before && x !in after
    ensures Without(before + [x] + after, x) == before + after
  {
    var withX := before + [x];
    WithoutConcat(withX, after, x);
    WithoutConcat(before, [x], x);
    assert Without([x], x) == [] by {
      assert [x][1..] == [];
    }
    WithoutAbsent(before, x);
    WithoutAbsent(after, x);
    assert Without(withX, x) == before;
  }

  /** A list is its prefix before `i`, its element at `i` and its suffix after `i`. */
  lemma Split<T>(s: seq<T>, i: nat)
    requires i < |s|
    ensures s[..i] + [s[i]] + s[i + 1..] == s
  {
  }

  /** In a duplicate-free list, dropping the element at `i` with `Without`
      is the same as cutting position `i` out. */
  lemma WithoutAt<T>(s: seq<T>, i: nat)
    requires NoDup(s) && i < |s|
    ensures Without(s, s[i]) == s[..i] + s[i + 1..]
  {
    NoDupSplit(s, i);
    WithoutOnly(s[..i], s[i], s[i + 1..]);
    Split(s, i);
  }

  /** On a duplicate-free likes list the toggle is the set toggle: a present
      identifier is dropped with every other element kept in order, an absent
      one is appended. */
  lemma ToggleIsSetToggle<T>(likes: seq<T>, x: T)
    requires NoDup(likes)
    ensures Toggle(likes, x) == if x in likes then Without(likes, x) else likes + [x]
  {
    if x in likes {
      var i := IndexOf(likes, x);
      NoDupSplit(likes, i);
      TogglePresent(likes, x, i);
      WithoutAt(likes, i);
    }
  }
}
