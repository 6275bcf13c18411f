/** Fixed arrays used as rings: consecutive positions of an unbounded line sit in
    consecutive slots, taken modulo the size of the array. */
module Ring {
  /** `x` reduced modulo `size`, by steps of `size`. */
  ghost function Slot(size: int, x: int): (p: int)
    requires size > 0
    ensures 0 <= p < size
    decreases if x < 0 then size - x else x
  {
    if x < 0 then Slot(size, x + size)
    else if x < size then x
    else Slot(size, x - size)
  }

  /** The slot of position `x` when slot 0 belongs to position `anchor`. */
  ghost function Loc(size: int, anchor: int, x: int): (p: int)
    requires size > 0
    ensures 0 <= p < size
  {
    Slot(size, x - anchor)
  }

  lemma QuotientUnique(size: int, q: int, r: int, q': int, r': int)
    requires 0 <= r < size && 0 <= r' < size
    requires q * size + r == q' * size + r'
    ensures q == q' && r == r'
  {
    if q < q' {
      MulStep(q, q', size);
    } else if q' < q {
      MulStep(q', q, size);
    }
  }

  lemma MulNat(d: nat, c: nat)
    ensures d * c >= 0
  {
  }

  lemma MulStep(a: int, b: int, c: nat)
    requires a < b
    ensures a * c + c <= b * c
  {
    var d := b - a - 1;
    MulNat(d, c);
    assert b * c == (a + 1 + d) * c == a * c + c + d * c;
  }

  lemma ModShift(size: int, x: int)
    requires size > 0
    ensures (x + size) % size == x % size
  {
    var q := x / size;
    assert (q + 1) * size == q * size + size;
    QuotientUnique(size, q + 1, x % size, (x + size) / size, (x + size) % size);
  }

  lemma {:induction false} SlotIsMod(size: int, x: int)
    requires size > 0
    ensures Slot(size, x) == x % size
    decreases if x < 0 then size - x else x
  {
    if x < 0 {
      SlotIsMod(size, x + size);
      ModShift(size, x);
    } else if x >= size {
      SlotIsMod(size, x - size);
      ModShift(size, x - size);
    } else {
      assert x / size == 0;
    }
  }

  lemma {:induction false} ModAdd(size: int, p: int, x: int, d: int)
    requires size > 0 && p == x % size
    ensures (p + d) % size == (x + d) % size
  {
    var q := x / size;
    assert x == q * size + p;
    ModMultiple(size, p + d, q);
    assert x + d == (p + d) + q * size;
  }

  lemma {:induction false} ModMultiple(size: int, y: int, q: int)
    requires size > 0
    ensures (y + q * size) % size == y % size
    decreases if q < 0 then -q else q
  {
    if q > 0 {
      ModMultiple(size, y, q - 1);
      ModShift(size, y + (q - 1) * size);
      assert y + (q - 1) * size + size == y + q * size;
    } else if q < 0 {
      ModMultiple(size, y, q + 1);
      ModShift(size, y + q * size);
      assert y + q * size + size == y + (q + 1) * size;
    }
  }

  /** Moving `d` positions from `x` is moving `d` slots around the arrays. */
  lemma LocStep(size: int, anchor: int, x: int, d: int)
    requires size > 0
    ensures (Loc(size, anchor, x) + d) % size == Loc(size, anchor, x + d)
    ensures (Loc(size, anchor, x) + d + size) % size == Loc(size, anchor, x + d)
  {
    SlotIsMod(size, x - anchor);
    SlotIsMod(size, x + d - anchor);
    ModAdd(size, Loc(size, anchor, x), x - anchor, d);
    ModShift(size, Loc(size, anchor, x) + d);
  }

  lemma {:induction false} SlotInjective(size: int, x: int, y: int)
    requires size > 0 && -size < x - y < size && Slot(size, x) == Slot(size, y)
    ensures x == y
    decreases if x < 0 then size - x else x
  {
    if x < 0 {
      assert Slot(size, y + size) == Slot(size, y);
      SlotInjective(size, x + size, y + size);
    } else if x >= size {
      assert Slot(size, y - size) == Slot(size, y);
      SlotInjective(size, x - size, y - size);
    }
  }

  /** Positions less than `size` apart never share a slot. */
  lemma LocInjective(size: int, anchor: int, x: int, y: int)
    requires size > 0 && -size < x - y < size && x != y
    ensures Loc(size, anchor, x) != Loc(size, anchor, y)
  {
    if Loc(size, anchor, x) == Loc(size, anchor, y) {
      SlotInjective(size, x - anchor, y - anchor);
    }
  }

  /** Less than one round ahead, the slot is the distance ahead, or that less one round. */
  lemma LocAhead(size: int, anchor: int, x: int, d: int)
    requires 0 <= d < size
    ensures Loc(size, anchor, x + d) ==
              if Loc(size, anchor, x) + d < size then Loc(size, anchor, x) + d else Loc(size, anchor, x) + d - size
  {
    LocStep(size, anchor, x, d);
    var p := Loc(size, anchor, x);
    if p + d < size {
      QuotientUnique(size, 0, p + d, (p + d) / size, (p + d) % size);
    } else {
      QuotientUnique(size, 1, p + d - size, (p + d) / size, (p + d) % size);
    }
  }

  /** One round ahead is the same slot. */
  lemma LocWraps(size: int, anchor: int, x: int)
    requires size > 0
    ensures Loc(size, anchor, x + size) == Loc(size, anchor, x)
  {
  }
}
