/** The snake's body: a non-empty chain of cells, head first (`struct Snake`). */
module Snakes {
  import opened Positions

  /** The cells of `a` that do not occur in `b`, in `a`'s order (`Snake::dif`). */
  function Difference(a: seq<Pos>, b: seq<Pos>): (r: seq<Pos>)
    ensures |r| <= |a|
    ensures forall i :: 0 <= i < |r| ==> r[i] in a && r[i] !in b
  {
    if a == [] then []
    else (if a[0] in b then [] else [a[0]]) + Difference(a[1..], b)
  }

  /** `r` is `a` with some cells dropped and the rest kept in order: each
      cell of `a` is either matched with the next cell of `r` or skipped. */
  predicate IsSubsequence(r: seq<Pos>, a: seq<Pos>)
    decreases |a|
  {
    if a == [] then r == []
    else (r != [] && r[0] == a[0] && IsSubsequence(r[1..], a[1..])) || IsSubsequence(r, a[1..])
  }

  /** A cell is in the difference exactly when it is in `a` and not in `b`. */
  lemma {:induction false} DifferenceMembers(a: seq<Pos>, b: seq<Pos>)
    ensures forall p :: p in Difference(a, b) <==> p in a && p !in b
  {
    if a != [] {
      DifferenceMembers(a[1..], b);
      assert a == [a[0]] + a[1..];
    }
  }

  /** The difference keeps the order of `a`. */
  lemma {:induction false} DifferenceIsSubsequence(a: seq<Pos>, b: seq<Pos>)
    ensures IsSubsequence(Difference(a, b), a)
  {
    if a != [] {
      DifferenceIsSubsequence(a[1..], b);
      var rest := Difference(a[1..], b);
      if a[0] in b {
        assert Difference(a, b) == rest;
      } else {
        assert Difference(a, b) == [a[0]] + rest;
        assert ([a[0]] + rest)[1..] == rest;
      }
    }
  }

  /** Filtering distributes over concatenation; with `DifferenceSingle`
      this determines `Difference` completely. */
  lemma {:induction false} DifferenceAppend(a1: seq<Pos>, a2: seq<Pos>, b: seq<Pos>)
    ensures Difference(a1 + a2, b) == Difference(a1, b) + Difference(a2, b)
  {
    if a1 == [] {
      assert a1 + a2 == a2;
    } else {
      DifferenceAppend(a1[1..], a2, b);
      assert (a1 + a2)[0] == a1[0] && (a1 + a2)[1..] == a1[1..] + a2;
      var h := if a1[0] in b then [] else [a1[0]];
      calc {
        Difference(a1 + a2, b);
        h + Difference(a1[1..] + a2, b);
        h + (Difference(a1[1..], b) + Difference(a2, b));
        (h + Difference(a1[1..], b)) + Difference(a2, b);
      }
    }
  }

  /** One cell is kept exactly when `b` lacks it. */
  lemma DifferenceSingle(p: Pos, b: seq<Pos>)
    ensures Difference([p], b) == if p in b then [] else [p]
  {
    assert [p][1..] == [];
  }

  /** The difference is empty exactly when every cell of `a` is in `b`. */
  lemma {:induction false} DifferenceEmpty(a: seq<Pos>, b: seq<Pos>)
    ensures Difference(a, b) == [] <==> forall p :: p in a ==> p in b
  {
    DifferenceMembers(a, b);
    var r := Difference(a, b);
    if r != [] {
      assert r[0] in r;
    }
  }

  /** `s.dif(s)` is empty. */
  lemma {:induction false} DifferenceSelf(s: seq<Pos>)
    ensures Difference(s, s) == []
  {
    DifferenceEmpty(s, s);
  }

  /** `a.dif(b)` and `b.dif(a)` share no cell. */
  lemma DifferenceDisjoint(a: seq<Pos>, b: seq<Pos>)
    ensures forall p :: !(p in Difference(a, b) && p in Difference(b, a))
  {
  }

  /** The unit test `snake_diff` on two one-cell snakes. */
  lemma DifferenceOneCellSnakes()
    ensures Difference([Pos(10, 10)], [Pos(11, 27)]) == [Pos(10, 10)]
    ensures Difference([Pos(11, 27)], [Pos(11, 27)]) == []
    ensures Difference([Pos(11, 27)], [Pos(10, 10)]) == [Pos(11, 27)]
  {
    DifferenceSingle(Pos(10, 10), [Pos(11, 27)]);
    DifferenceSingle(Pos(11, 27), [Pos(11, 27)]);
    DifferenceSingle(Pos(11, 27), [Pos(10, 10)]);
  }

  /** The body after one `move_in` in `d` toward `apple`: the shifted head
      in front, and the tail cell dropped unless the old head was on the apple. */
  function Advance(body: seq<Pos>, d: Direction, apple: Pos): seq<Pos>
    requires |body| > 0 && CanShift(body[0], d)
  {
    [Shift(body[0], d)] + if body[0] == apple then body else body[..|body| - 1]
  }

  /** No cell occurs twice in a chain. */
  predicate NoDuplicates(body: seq<Pos>)
  {
    forall i, j :: 0 <= i < j < |body| ==> body[i] != body[j]
  }

  /** When the new head is not on the old body and the old body has no
      repeated cell, the delta between the bodies is one painted cell (the new
      head) and at most one erased cell (the old tail, unless the snake ate),
      and the new body has no repeated cell either. */
  lemma {:induction false} AdvanceDelta(body: seq<Pos>, d: Direction, apple: Pos)
    requires |body| > 0 && CanShift(body[0], d) && NoDuplicates(body)
    requires Shift(body[0], d) !in body
    ensures var after := Advance(body, d, apple);
      && Difference(after, body) == [after[0]]
      && Difference(body, after) == (if body[0] == apple then [] else [body[|body| - 1]])
      && NoDuplicates(after)
  {
    var after := Advance(body, d, apple);
    var n := |body|;
    var h := after[0];
    var rest := after[1..];
    assert after == [h] + rest;
    assert forall p :: p in rest ==> p in body;
    // painted cells
    DifferenceAppend([h], rest, body);
    DifferenceSingle(h, body);
    DifferenceEmpty(rest, body);
    // erased cells
    if body[0] == apple {
      assert rest == body;
      DifferenceEmpty(body, after);
    } else {
      var last := body[n - 1];
      assert rest == body[..n - 1];
      assert body == body[..n - 1] + [last];
      DifferenceAppend(body[..n - 1], [last], after);
      DifferenceEmpty(body[..n - 1], after);
      assert last !in rest;
      DifferenceSingle(last, after);
    }
    // no repeated cell: the head is new, the rest is a piece of the old body
    forall i, j | 0 <= i < j < |after| ensures after[i] != after[j] {
      assert after[j] == rest[j - 1];
      if i > 0 {
        assert after[i] == rest[i - 1];
      }
    }
  }

  class Snake {
    /** `internal: Vec<Pos>`, index 0 is the head. */
    var internal: seq<Pos>

    /** `head()` indexes `[0]`, so the body is never empty. */
    ghost predicate Valid()
      reads this
    {
      |internal| > 0
    }

    /** `Snake::new`: a one-cell snake. */
    constructor (x: u16, y: u16)
      ensures Valid() && internal == [Pos(x, y)]
    {
      internal := [Pos(x, y)];
    }

    /** `#[derive(Clone)]`: a fresh snake with the same cells. */
    method Clone() returns (c: Snake)
      ensures fresh(c) && c.internal == internal
    {
      c := new Snake(0, 0);
      c.internal := internal;
    }

    /** `Snake::contains`. */
    function Contains(p: Pos): (r: bool)
      reads this
      ensures r <==> exists i :: 0 <= i < |internal| && internal[i] == p
    {
      p in internal
    }

    /** `Snake::head`: the first cell, which is a cell of the snake. */
    function Head(): (h: Pos)
      requires Valid()
      reads this
      ensures h == internal[0] && Contains(h)
    {
      internal[0]
    }

    /** `Snake::move_to`: insert `p` at index 0, then pop the last cell if asked. */
    method MoveTo(p: Pos, delTail: bool)
      requires Valid()
      modifies this
      ensures Valid()
      ensures internal[0] == p
      ensures internal[1..] == if delTail then old(internal)[..|old(internal)| - 1] else old(internal)
    {
      internal := [p] + internal;
      if delTail {
        internal := internal[..|internal| - 1];
      }
    }

    /** `Snake::move_in`: the head moves one cell in `d`; the snake ate when
        its head BEFORE the move was on `apple`, and then keeps its tail. */
    method MoveIn(d: Direction, apple: Pos) returns (ate: bool)
      requires Valid() && CanShift(Head(), d)
      modifies this
      ensures Valid()
      ensures ate <==> old(internal)[0] == apple
      ensures internal[0] == Shift(old(internal)[0], d)
      ensures internal[1..] == if ate then old(internal) else old(internal)[..|old(internal)| - 1]
      ensures |internal| == |old(internal)| + if ate then 1 else 0
      ensures internal == Advance(old(internal), d, apple)
    {
      var h := Head();
      match d {
        case Down => h := h.(y := h.y + 1);
        case Up => h := h.(y := h.y - 1);
        case Left => h := h.(x := h.x - 1);
        case Right => h := h.(x := h.x + 1);
      }
      ate := Head() == apple;
      MoveTo(h, !ate);
      assert internal == [internal[0]] + internal[1..];
    }

    /** `Snake::dif`: the cells of this snake not in `other`, in this snake's order. */
    function Dif(other: Snake): (r: seq<Pos>)
      reads this, other
      ensures forall p :: p in r <==> p in internal && p !in other.internal
      ensures IsSubsequence(r, internal)
    {
      DifferenceMembers(internal, other.internal);
      DifferenceIsSubsequence(internal, other.internal);
      Difference(internal, other.internal)
    }
  }
}
