/**
 The order that a binary min-heap keeps among the first `m` of its keys, and what one
 exchange does to it while a key is sifted up or down.
 */
module HeapOrder {

  function Up(i: nat): nat
    requires i > 0
  {
    (i - 1) / 2
  }

  function Swapped<T>(s: seq<T>, i: nat, j: nat): seq<T>
    requires i < |s| && j < |s|
  {
    s[i := s[j]][j := s[i]]
  }

  predicate EdgeOk(keys: seq<int>, c: nat)
    requires 0 < c < |keys|
  {
    keys[Up(c)] <= keys[c]
  }

  /** Every key except those at `hole` is no smaller than its parent. */
  predicate OrderedBut(keys: seq<int>, m: nat, hole: int)
    requires m <= |keys|
  {
    forall c :: 0 < c < m && c != hole ==> EdgeOk(keys, c)
  }

  /** As `OrderedBut`, but the children of `i` may also be too small. */
  predicate OrderedAround(keys: seq<int>, m: nat, hole: int, i: nat)
    requires m <= |keys|
  {
    forall c :: 0 < c < m && c != hole && Up(c) != i ==> EdgeOk(keys, c)
  }

  /** The children of `i` are no smaller than the parent of `i`. */
  predicate Bridged(keys: seq<int>, m: nat, i: nat)
    requires m <= |keys|
  {
    0 < i < m ==> forall c :: 0 < c < m && Up(c) == i ==> keys[Up(i)] <= keys[c]
  }

  lemma SiftUpStep(keys: seq<int>, m: nat, j: nat)
    requires 0 < j < m <= |keys| && OrderedBut(keys, m, j) && Bridged(keys, m, j) && keys[j] < keys[Up(j)]
    ensures OrderedBut(Swapped(keys, Up(j), j), m, Up(j)) && Bridged(Swapped(keys, Up(j), j), m, Up(j))
  {
    var i := Up(j);
    var k := Swapped(keys, i, j);
    forall c | 0 < c < m && c != i
      ensures EdgeOk(k, c)
    {
      if c != j {
        assert EdgeOk(keys, c);
      }
    }
    if 0 < i {
      assert EdgeOk(keys, i);
      forall c | 0 < c < m && Up(c) == i
        ensures k[Up(i)] <= k[c]
      {
        if c != j {
          assert EdgeOk(keys, c);
        }
      }
    }
  }

  /** No child of `i` is smaller than the key at `j`. */
  predicate LeastChild(keys: seq<int>, m: nat, i: nat, j: nat)
    requires j < |keys| && m <= |keys|
  {
    forall c :: 0 < c < m && Up(c) == i ==> keys[j] <= keys[c]
  }

  lemma AppendKey(keys: seq<int>, k: int)
    requires OrderedBut(keys, |keys|, -1)
    ensures OrderedBut(keys + [k], |keys| + 1, |keys|) && Bridged(keys + [k], |keys| + 1, |keys|)
  {
    forall c | 0 < c < |keys|
      ensures EdgeOk(keys + [k], c)
    {
      assert EdgeOk(keys, c);
    }
  }

  lemma OrderedPrefix(keys: seq<int>)
    requires |keys| > 0 && OrderedBut(keys, |keys|, -1)
    ensures OrderedBut(keys, |keys| - 1, -1)
  {}

  lemma DropLastKey(keys: seq<int>)
    requires |keys| > 0 && OrderedBut(keys, |keys| - 1, -1)
    ensures OrderedBut(keys[..|keys| - 1], |keys| - 1, -1)
  {
    var rest := keys[..|keys| - 1];
    forall c | 0 < c < |rest|
      ensures EdgeOk(rest, c)
    {
      assert EdgeOk(keys, c);
    }
  }

  /** After the last key has been exchanged with key `i`, only the edges of `i` may be wrong. */
  lemma MoveLast(keys: seq<int>, i: nat)
    requires i < |keys| - 1 && OrderedBut(keys, |keys|, -1)
    ensures Sinking(Swapped(keys, i, |keys| - 1), |keys| - 1, i, i)
  {
    var k := Swapped(keys, i, |keys| - 1);
    forall c | 0 < c < |keys| - 1
      ensures c != i && Up(c) != i ==> EdgeOk(k, c)
      ensures 0 < i && Up(c) == i ==> k[Up(i)] <= k[c]
    {
      assert EdgeOk(keys, c) && (0 < i ==> EdgeOk(keys, i));
    }
  }

  lemma LesserChild(keys: seq<int>, m: nat, i: nat, j: nat)
    requires 2 * i + 1 < m <= |keys|
    requires j == if 2 * i + 2 < m && keys[2 * i + 2] < keys[2 * i + 1] then 2 * i + 2 else 2 * i + 1
    ensures Up(j) == i && LeastChild(keys, m, i, j)
  {
    assert forall c :: 0 < c < m && Up(c) == i ==> c == 2 * i + 1 || c == 2 * i + 2;
  }

  /** A key that started at `i0` has sunk to `i`; only its own edges may be wrong. */
  predicate Sinking(keys: seq<int>, m: nat, i0: nat, i: nat)
    requires m <= |keys|
  {
    && i0 <= i < m
    && OrderedAround(keys, m, if i == i0 then i0 else -1, i)
    && Bridged(keys, m, i)
    && (i != i0 ==> EdgeOk(keys, i))
  }

  lemma SiftDownStep(keys: seq<int>, m: nat, i0: nat, i: nat, j: nat)
    requires 0 < j < m <= |keys| && i == Up(j)
    requires Sinking(keys, m, i0, i) && keys[j] < keys[i] && LeastChild(keys, m, i, j)
    ensures Sinking(Swapped(keys, i, j), m, i0, j)
  {
    var k := Swapped(keys, i, j);
    forall c | 0 < c < m && Up(c) != j
      ensures EdgeOk(k, c)
    {
      if c != i && Up(c) != i {
        assert EdgeOk(keys, c);
      }
    }
    forall c | 0 < c < m && Up(c) == j
      ensures k[Up(j)] <= k[c]
    {
      assert EdgeOk(keys, c);
    }
  }

  lemma SiftDownStop(keys: seq<int>, m: nat, i0: nat, i: nat, j: nat)
    requires i < m <= |keys| && Sinking(keys, m, i0, i)
    requires j < m && keys[i] <= keys[j] && (2 * i + 1 < m ==> LeastChild(keys, m, i, j))
    ensures if i == i0 then OrderedBut(keys, m, i0) && Bridged(keys, m, i0) else OrderedBut(keys, m, -1)
  {
    forall c | 0 < c < m && (i == i0 ==> c != i0)
      ensures EdgeOk(keys, c)
    {}
  }

  lemma {:induction false} RootIsLeast(keys: seq<int>, i: nat)
    requires i < |keys| && OrderedBut(keys, |keys|, -1)
    ensures keys[0] <= keys[i]
  {
    if i > 0 {
      assert EdgeOk(keys, i);
      RootIsLeast(keys, Up(i));
    }
  }
}
