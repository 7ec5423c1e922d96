/**
  Unsigned bit-fields as ISO/IEC 9899 describes them (section 6.7.2.1): a run of
  adjacent fields of fixed widths packed into one storage unit, and section
  6.3.1.3, under which a value stored into an unsigned field of width `w` keeps
  its value modulo 2^w.

  The physical order in which a compiler allocates bit-fields inside the unit is
  implementation-defined. This model fixes one order: the first declared field
  occupies the least significant bits, each next field the bits just above it.
  The properties proved about concrete layouts (round-trips, ranges, field
  independence, the word being filled) hold for any fixed allocation order.
  `FieldAt` and `UnpackIsFieldAt` name bit positions, so they depend on it.
 */
module BitFields {

  /** C `unsigned int` on the target: 32 bits, held as an integer. */
  type uint32 = x: int | 0 <= x < 0x1_0000_0000

  function Pow2(n: nat): (p: nat)
    ensures p >= 1
  {
    if n == 0 then 1 else 2 * Pow2(n - 1)
  }

  /** Total number of bits a layout occupies. */
  function TotalWidth(ws: seq<nat>): nat
  {
    if |ws| == 0 then 0 else ws[0] + TotalWidth(ws[1..])
  }

  /** Bit position of field `i`: the widths of the fields declared before it. */
  function FieldOffset(ws: seq<nat>, i: nat): nat
    requires i <= |ws|
  {
    TotalWidth(ws[..i])
  }

  /** Conversion of any integer to an unsigned field of `width` bits
      (section 6.3.1.3): the unique representative of `v` modulo 2^width. */
  function Store(v: int, width: nat): (r: nat)
    ensures r < Pow2(width)
    ensures (v - r) % Pow2(width) == 0
    ensures 0 <= v < Pow2(width) ==> r == v
  {
    var m := Pow2(width);
    ModRepresentative(v, m);
    v % m
  }

  /** The values the fields hold after each of `vs` is stored into its field. */
  function StoreAll(ws: seq<nat>, vs: seq<int>): (rs: seq<nat>)
    requires |ws| == |vs|
    ensures |rs| == |ws|
    ensures forall i :: 0 <= i < |ws| ==> rs[i] == Store(vs[i], ws[i])
  {
    seq(|ws|, i requires 0 <= i < |ws| => Store(vs[i], ws[i]))
  }

  /** Every value fits its field. */
  predicate Fits(ws: seq<nat>, vs: seq<int>)
  {
    |ws| == |vs| && forall i :: 0 <= i < |ws| ==> 0 <= vs[i] < Pow2(ws[i])
  }

  /** The storage unit after storing `vs` into the fields of layout `ws`. */
  function Pack(ws: seq<nat>, vs: seq<int>): (w: nat)
    requires |ws| == |vs|
    ensures w < Pow2(TotalWidth(ws))
    decreases |ws|
  {
    if |ws| == 0 then 0
    else
      var rest := Pack(ws[1..], vs[1..]);
      PackStep(Store(vs[0], ws[0]), ws[0], rest, TotalWidth(ws[1..]));
      Store(vs[0], ws[0]) + Pow2(ws[0]) * rest
  }

  /** The field values read back from storage unit `w`. */
  function Unpack(ws: seq<nat>, w: nat): (vs: seq<nat>)
    ensures |vs| == |ws|
    ensures forall i :: 0 <= i < |ws| ==> vs[i] < Pow2(ws[i])
    decreases |ws|
  {
    if |ws| == 0 then []
    else
      var p := Pow2(ws[0]);
      DivModDecompose(w, p);
      [w % p] + Unpack(ws[1..], w / p)
  }

  /** Reference reading of one field, independent of `Unpack`: shift the unit
      right by the field's offset and keep `width` bits. */
  function FieldAt(ws: seq<nat>, i: nat, w: nat): nat
    requires i < |ws|
  {
    (w / Pow2(FieldOffset(ws, i))) % Pow2(ws[i])
  }

  /** The unit after assigning `v` to field `i` and leaving the others alone. */
  function Update(ws: seq<nat>, w: nat, i: nat, v: int): (w': nat)
    requires i < |ws|
    ensures w' < Pow2(TotalWidth(ws))
  {
    var vs: seq<int> := Unpack(ws, w);
    Pack(ws, vs[i := v])
  }

  // ---------------------------------------------------------------------
  // Arithmetic helpers
  // ---------------------------------------------------------------------

  lemma DivModDecompose(a: int, m: int)
    requires m > 0
    ensures a == m * (a / m) + a % m
    ensures 0 <= a % m < m
    ensures a >= 0 ==> a / m >= 0
  {
    if a >= 0 {
      MulSign(m, a / m);
    }
  }

  /** `a % m` is the representative of `a` modulo `m` in [0, m). */
  lemma ModRepresentative(a: int, m: int)
    requires m > 0
    ensures 0 <= a % m < m
    ensures (a - a % m) % m == 0
    ensures 0 <= a < m ==> a % m == a
  {
    DivModDecompose(a, m);
    DivModUnique(a - a % m, m, a / m, 0);
    if 0 <= a < m {
      DivModUnique(a, m, 0, a);
    }
  }

  lemma MulSign(m: int, d: int)
    requires m > 0
    ensures d >= 1 ==> m * d >= m
    ensures d <= -1 ==> m * d <= -m
  {
    if d >= 1 {
      assert m * d == m * (d - 1) + m;
      assert m * (d - 1) >= 0;
    }
    if d <= -1 {
      assert m * d == m * (d + 1) - m;
      assert m * (-(d + 1)) >= 0;
    }
  }

  lemma MulLe(m: nat, a: int, b: int)
    requires a <= b
    ensures m * a <= m * b
  {
    MulMonotone(m, a, b);
  }

  lemma MulMonotone(m: nat, a: int, b: int)
    ensures a <= b ==> m * a <= m * b
  {
    assert m * b - m * a == m * (b - a);
    if a <= b {
      assert m * (b - a) >= 0;
    }
  }

  lemma MulDistrib(m: int, a: int, b: int)
    ensures m * (a + b) == m * a + m * b
  {
  }

  lemma MulAssoc(a: int, b: int, c: int)
    ensures a * (b * c) == (a * b) * c
  {
  }

  /** Quotient and remainder are determined by any decomposition of `a`. */
  lemma DivModUnique(a: int, m: int, q: int, r: int)
    requires m > 0 && 0 <= r < m
    requires a == m * q + r
    ensures a / m == q && a % m == r
  {
    var q', r' := a / m, a % m;
    DivModDecompose(a, m);
    MulDistrib(m, q', q - q');
    MulSign(m, q - q');
  }

  lemma PackStep(lo: nat, width: nat, hi: nat, restWidth: nat)
    requires lo < Pow2(width) && hi < Pow2(restWidth)
    ensures lo + Pow2(width) * hi < Pow2(width + restWidth)
  {
    var p, q := Pow2(width), Pow2(restWidth);
    Pow2Add(width, restWidth);
    MulLe(p, hi, q - 1);
    MulDistrib(p, q - 1, 1);
  }

  lemma {:induction false} Pow2Add(a: nat, b: nat)
    ensures Pow2(a + b) == Pow2(a) * Pow2(b)
  {
    if a > 0 {
      Pow2Add(a - 1, b);
      MulAssoc(2, Pow2(a - 1), Pow2(b));
    }
  }

  /** The powers of two the message layouts use. */
  lemma Pow2Table()
    ensures Pow2(1) == 2 && Pow2(8) == 0x100 && Pow2(12) == 0x1000
    ensures Pow2(16) == 0x1_0000 && Pow2(24) == 0x100_0000
    ensures Pow2(28) == 0x1000_0000 && Pow2(32) == 0x1_0000_0000
  {
    Pow2Add(8, 8);
    Pow2Add(12, 12);
    Pow2Add(16, 12);
    Pow2Add(16, 16);
  }

  lemma DivDiv(w: nat, a: nat, b: nat)
    requires a > 0 && b > 0
    ensures w / a / b == w / (a * b)
  {
    var q1, r1 := w / a, w % a;
    DivModDecompose(w, a);
    var q2, r2 := q1 / b, q1 % b;
    DivModDecompose(q1, b);
    MulDistrib(a, b * q2, r2);
    MulAssoc(a, b, q2);
    MulLe(a, r2, b - 1);
    MulDistrib(a, b - 1, 1);
    MulSign(a, b);
    DivModUnique(w, a * b, q2, a * r2 + r1);
  }

  lemma DivBound(w: nat, a: nat, b: nat)
    requires a > 0 && w < a * b
    ensures w / a < b
  {
    DivModDecompose(w, a);
    MulMonotone(a, b, w / a);
  }

  // ---------------------------------------------------------------------
  // Layout properties
  // ---------------------------------------------------------------------

  lemma {:induction false} FieldOffsetStep(ws: seq<nat>, i: nat)
    requires 0 < i < |ws|
    ensures FieldOffset(ws, i) == ws[0] + FieldOffset(ws[1..], i - 1)
  {
    assert ws[..i][0] == ws[0];
    assert ws[..i][1..] == ws[1..][..i - 1];
  }

  /** Fields sit side by side: the last field ends where the layout ends. */
  lemma {:induction false} FieldOffsetBound(ws: seq<nat>, i: nat)
    requires i < |ws|
    ensures FieldOffset(ws, i) + ws[i] <= TotalWidth(ws)
    decreases |ws|
  {
    if i > 0 {
      FieldOffsetStep(ws, i);
      FieldOffsetBound(ws[1..], i - 1);
    } else {
      assert ws[..0] == [];
    }
  }

  /** Reading the unit field by field agrees with shifting and masking. */
  lemma {:induction false} UnpackIsFieldAt(ws: seq<nat>, w: nat, i: nat)
    requires i < |ws|
    ensures Unpack(ws, w)[i] == FieldAt(ws, i, w)
    decreases |ws|
  {
    if i == 0 {
      assert ws[..0] == [];
    } else {
      var p := Pow2(ws[0]);
      DivModDecompose(w, p);
      var hi: nat := w / p;
      var off := FieldOffset(ws[1..], i - 1);
      UnpackIsFieldAt(ws[1..], hi, i - 1);
      assert Unpack(ws, w)[i] == Unpack(ws[1..], hi)[i - 1];
      FieldOffsetStep(ws, i);
      Pow2Add(ws[0], off);
      DivDiv(w, p, Pow2(off));
    }
  }

  /** Reading back a packed unit yields each value modulo 2^width. */
  lemma {:induction false} UnpackPack(ws: seq<nat>, vs: seq<int>)
    requires |ws| == |vs|
    ensures Unpack(ws, Pack(ws, vs)) == StoreAll(ws, vs)
    decreases |ws|
  {
    if |ws| > 0 {
      var p := Pow2(ws[0]);
      var rest := Pack(ws[1..], vs[1..]);
      DivModUnique(Pack(ws, vs), p, rest, Store(vs[0], ws[0]));
      UnpackPack(ws[1..], vs[1..]);
      var lhs := Unpack(ws, Pack(ws, vs));
      assert lhs == [Store(vs[0], ws[0])] + StoreAll(ws[1..], vs[1..]);
      assert forall i :: 0 <= i < |ws| ==> lhs[i] == StoreAll(ws, vs)[i] by {
        forall i | 0 <= i < |ws|
          ensures lhs[i] == StoreAll(ws, vs)[i]
        {
          if i > 0 {
            assert lhs[i] == StoreAll(ws[1..], vs[1..])[i - 1];
          }
        }
      }
    }
  }

  /** Values that fit are read back unchanged. */
  lemma UnpackPackFits(ws: seq<nat>, vs: seq<int>)
    requires Fits(ws, vs)
    ensures Unpack(ws, Pack(ws, vs)) == vs
  {
    UnpackPack(ws, vs);
    assert StoreAll(ws, vs) == vs;
  }

  /** Every unit within the layout's width is the packing of its own fields. */
  lemma {:induction false} PackUnpack(ws: seq<nat>, w: nat)
    requires w < Pow2(TotalWidth(ws))
    ensures Pack(ws, Unpack(ws, w)) == w
    decreases |ws|
  {
    if |ws| == 0 {
      assert Pow2(0) == 1;
    } else {
      var p := Pow2(ws[0]);
      var q := Pow2(TotalWidth(ws[1..]));
      var vs := Unpack(ws, w);
      assert TotalWidth(ws) == ws[0] + TotalWidth(ws[1..]);
      Pow2Add(ws[0], TotalWidth(ws[1..]));
      assert w < p * q;
      DivBound(w, p, q);
      DivModDecompose(w, p);
      MulSign(p, w / p);
      var hi: nat := w / p;
      PackUnpack(ws[1..], hi);
      assert vs[1..] == Unpack(ws[1..], hi);
      assert Store(vs[0], ws[0]) == w % p;
      assert Pack(ws, vs) == w % p + p * Pack(ws[1..], vs[1..]);
    }
  }

  /** Assigning one field changes that field to the stored value and no other. */
  lemma UpdateReads(ws: seq<nat>, w: nat, i: nat, v: int, j: nat)
    requires i < |ws| && j < |ws|
    ensures Unpack(ws, Update(ws, w, i, v))[j]
         == if j == i then Store(v, ws[i]) else Unpack(ws, w)[j]
  {
    var vs: seq<int> := Unpack(ws, w);
    UnpackPack(ws, vs[i := v]);
  }
}
