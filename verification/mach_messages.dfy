/**
  The bit-field parts of the Mach message structures: the leading word of
  `msg_header_t` (`msg_unused` : 24, `msg_simple` : 8), the packed type
  descriptor `msg_type_t` (name 8, size 8, number 12, then four one-bit flags)
  and the long descriptor `msg_type_long_t` that follows a `msg_type_t` with a
  `short` name, a `short` size and an `int` count.

  Words are C `unsigned int` values (see `BitFields.uint32`). Fields are
  allocated from the least significant bit upward in declaration order; that
  order is a choice of this model. Every lemma below except
  `TypeFieldIsShiftMask` and `ShiftIsFieldOffset` (and, in `BitFields`,
  `UnpackIsFieldAt`) holds whatever fixed order a compiler picks.
 */
module MachMessages {
  import opened BitFields

  // ---------------------------------------------------------------------
  // msg_header_t: the leading bit-field word
  // ---------------------------------------------------------------------

  /** Widths of `msg_unused` and `msg_simple`, in declaration order. */
  const HeaderLayout: seq<nat> := [24, 8]

  datatype HeaderBits = HeaderBits(unused: nat, simple: nat)
  {
    /** Both values fit their fields. */
    predicate Valid()
    {
      unused < 0x100_0000 && simple < 0x100
    }
  }

  lemma HeaderFillsWord()
    ensures TotalWidth(HeaderLayout) == 32
    ensures Pow2(TotalWidth(HeaderLayout)) == 0x1_0000_0000
  {
    Pow2Table();
  }

  /** The header word after assigning both fields; each keeps only its low bits. */
  function PackHeader(h: HeaderBits): (w: uint32)
    ensures UnpackHeader(w) == HeaderBits(Store(h.unused, 24), Store(h.simple, 8))
  {
    var vs: seq<int> := [h.unused, h.simple];
    HeaderFillsWord();
    UnpackPack(HeaderLayout, vs);
    Pack(HeaderLayout, vs)
  }

  /** The two fields read from a header word. */
  function UnpackHeader(w: uint32): (h: HeaderBits)
    ensures h.Valid()
  {
    var vs := Unpack(HeaderLayout, w);
    Pow2Table();
    HeaderBits(vs[0], vs[1])
  }

  lemma HeaderRoundTrip(h: HeaderBits)
    requires h.Valid()
    ensures UnpackHeader(PackHeader(h)) == h
  {
    Pow2Table();
  }

  lemma HeaderWordRoundTrip(w: uint32)
    ensures PackHeader(UnpackHeader(w)) == w
  {
    HeaderFillsWord();
    var vs := Unpack(HeaderLayout, w);
    PackUnpack(HeaderLayout, w);
    assert [vs[0], vs[1]] == vs;
  }

  // ---------------------------------------------------------------------
  // msg_type_t: the packed type descriptor
  // ---------------------------------------------------------------------

  /** Widths of the seven fields of `msg_type_t`, in declaration order. */
  const TypeLayout: seq<nat> := [8, 8, 12, 1, 1, 1, 1]

  datatype TypeField = Name | Size | Number | Inline | LongForm | Deallocate | Unused

  /** A decoded (or to-be-encoded) `msg_type_t`. */
  datatype TypeDescriptor = TypeDescriptor(
    name: nat,
    size: nat,
    number: nat,
    inline: nat,
    longForm: nat,
    deallocate: nat,
    unused: nat)
  {
    /** Every value fits its field. */
    predicate Valid()
    {
      && name < 0x100 && size < 0x100 && number < 0x1000
      && inline <= 1 && longForm <= 1 && deallocate <= 1 && unused <= 1
    }

    function Get(f: TypeField): nat
    {
      match f
      case Name => name
      case Size => size
      case Number => number
      case Inline => inline
      case LongForm => longForm
      case Deallocate => deallocate
      case Unused => unused
    }
  }

  /** Declaration position of each field. */
  function Index(f: TypeField): (i: nat)
    ensures i < |TypeLayout|
  {
    match f
    case Name => 0
    case Size => 1
    case Number => 2
    case Inline => 3
    case LongForm => 4
    case Deallocate => 5
    case Unused => 6
  }

  function Width(f: TypeField): nat
  {
    TypeLayout[Index(f)]
  }

  /** Under the allocation order of this model, the bit at which each field starts. */
  function Shift(f: TypeField): nat
  {
    match f
    case Name => 0
    case Size => 8
    case Number => 16
    case Inline => 28
    case LongForm => 29
    case Deallocate => 30
    case Unused => 31
  }

  function Fields(d: TypeDescriptor): (vs: seq<int>)
    ensures |vs| == |TypeLayout|
    ensures forall f :: vs[Index(f)] == d.Get(f)
  {
    [d.name, d.size, d.number, d.inline, d.longForm, d.deallocate, d.unused]
  }

  lemma TypeFillsWord()
    ensures TotalWidth(TypeLayout) == 32
    ensures Pow2(TotalWidth(TypeLayout)) == 0x1_0000_0000
  {
    Pow2Table();
  }

  /** The seven fields read from a descriptor word; each lies below 2^width. */
  function UnpackType(w: uint32): (d: TypeDescriptor)
    ensures d.Valid()
  {
    var vs := Unpack(TypeLayout, w);
    Pow2Table();
    assert vs[0] < 0x100 && vs[1] < 0x100 && vs[2] < 0x1000 by {
      assert TypeLayout[0] == 8 && TypeLayout[1] == 8 && TypeLayout[2] == 12;
    }
    assert vs[3] <= 1 && vs[4] <= 1 && vs[5] <= 1 && vs[6] <= 1 by {
      assert TypeLayout[3] == 1 && TypeLayout[4] == 1;
      assert TypeLayout[5] == 1 && TypeLayout[6] == 1;
    }
    TypeDescriptor(vs[0], vs[1], vs[2], vs[3], vs[4], vs[5], vs[6])
  }

  /** Reading a field of the decoded record is reading its slot of the layout. */
  lemma GetIsUnpack(w: uint32)
    ensures forall f :: UnpackType(w).Get(f) == Unpack(TypeLayout, w)[Index(f)]
  {
    forall f
      ensures UnpackType(w).Get(f) == Unpack(TypeLayout, w)[Index(f)]
    {
      match f
      case Name =>
      case Size =>
      case Number =>
      case Inline =>
      case LongForm =>
      case Deallocate =>
      case Unused =>
    }
  }

  /** The descriptor word after assigning every field; each field keeps only
      its value modulo 2^width. */
  function PackType(d: TypeDescriptor): (w: uint32)
    ensures forall f :: UnpackType(w).Get(f) == Store(d.Get(f), Width(f))
  {
    TypeFillsWord();
    var w := Pack(TypeLayout, Fields(d));
    UnpackPack(TypeLayout, Fields(d));
    GetIsUnpack(w);
    w
  }

  lemma TypeRoundTrip(d: TypeDescriptor)
    requires d.Valid()
    ensures UnpackType(PackType(d)) == d
  {
    Pow2Table();
    var e := UnpackType(PackType(d));
    assert e.Get(Name) == d.name && e.Get(Size) == d.size && e.Get(Number) == d.number;
    assert e.Get(Inline) == d.inline && e.Get(LongForm) == d.longForm;
    assert e.Get(Deallocate) == d.deallocate && e.Get(Unused) == d.unused;
  }

  lemma TypeWordRoundTrip(w: uint32)
    ensures PackType(UnpackType(w)) == w
  {
    TypeFillsWord();
    PackUnpack(TypeLayout, w);
    assert Fields(UnpackType(w)) == Unpack(TypeLayout, w);
  }

  /** The descriptor word after the assignment `t.f = v` for any integer `v`. */
  function SetTypeField(w: uint32, f: TypeField, v: int): (w': uint32)
    ensures UnpackType(w').Get(f) == Store(v, Width(f))
    ensures forall g :: g != f ==> UnpackType(w').Get(g) == UnpackType(w).Get(g)
  {
    TypeFillsWord();
    var w' := Update(TypeLayout, w, Index(f), v);
    UpdateAllReads(w, w', f, v);
    w'
  }

  lemma UpdateAllReads(w: uint32, w': uint32, f: TypeField, v: int)
    requires w' == Update(TypeLayout, w, Index(f), v)
    ensures UnpackType(w').Get(f) == Store(v, Width(f))
    ensures forall g :: g != f ==> UnpackType(w').Get(g) == UnpackType(w).Get(g)
  {
    GetIsUnpack(w);
    GetIsUnpack(w');
    forall g
      ensures UnpackType(w').Get(g) == if g == f then Store(v, Width(f)) else UnpackType(w).Get(g)
    {
      UpdateReads(TypeLayout, w, Index(f), v, Index(g));
      IndexInjective(f, g);
    }
  }

  lemma IndexInjective(f: TypeField, g: TypeField)
    ensures Index(f) == Index(g) <==> f == g
  {
  }

  /** Under the allocation order of this model, each field is the word shifted
      right by the field's position and masked to its width. */
  lemma TypeFieldIsShiftMask(w: uint32, f: TypeField)
    ensures UnpackType(w).Get(f) == (w / Pow2(Shift(f))) % Pow2(Width(f))
  {
    var i := Index(f);
    UnpackIsFieldAt(TypeLayout, w, i);
    ShiftIsFieldOffset(f);
    GetIsUnpack(w);
  }

  /** The positions in `Shift` are the running sums of the declared widths. */
  lemma ShiftIsFieldOffset(f: TypeField)
    ensures Shift(f) == FieldOffset(TypeLayout, Index(f))
    ensures Shift(f) + Width(f) <= 32
  {
    match f
    case Name => assert TypeLayout[..0] == [];
    case Size => assert TypeLayout[..1] == [8];
    case Number => assert TypeLayout[..2] == [8, 8];
    case Inline => assert TypeLayout[..3] == [8, 8, 12];
    case LongForm => assert TypeLayout[..4] == [8, 8, 12, 1];
    case Deallocate => assert TypeLayout[..5] == [8, 8, 12, 1, 1];
    case Unused => assert TypeLayout[..6] == [8, 8, 12, 1, 1, 1];
  }

  // ---------------------------------------------------------------------
  // msg_type_long_t: the long type descriptor
  // ---------------------------------------------------------------------

  /** C `short` and `int` on the target. */
  type int16 = x: int | -0x8000 <= x < 0x8000
  type int32 = x: int | -0x8000_0000 <= x < 0x8000_0000

  datatype LongTypeDescriptor = LongTypeDescriptor(
    header: TypeDescriptor,
    longName: int16,
    longSize: int16,
    longNumber: int32)
  {
    /** The embedded short descriptor's fields fit their widths. */
    predicate Valid()
    {
      header.Valid()
    }
  }

  /** The stored representation of each member of a `msg_type_long_t`: the
      descriptor word, the two 16-bit units of the `short` members and the
      32-bit unit of the `int` member. Signed members are stored in two's
      complement, so a stored unit is the value modulo 2^width. */
  datatype LongImage = LongImage(header: uint32, name: nat, size: nat, number: nat)
  {
    predicate Valid()
    {
      name < 0x1_0000 && size < 0x1_0000 && number < 0x1_0000_0000
    }
  }

  /** The `short` whose two's-complement representation is the unit `u`. */
  function Signed16(u: nat): (v: int16)
    requires u < 0x1_0000
    ensures (u - v) % 0x1_0000 == 0
  {
    if u < 0x8000 then u else u - 0x1_0000
  }

  /** The `int` whose two's-complement representation is the unit `u`. */
  function Signed32(u: nat): (v: int32)
    requires u < 0x1_0000_0000
    ensures (u - v) % 0x1_0000_0000 == 0
  {
    if u < 0x8000_0000 then u else u - 0x1_0000_0000
  }

  /** The member images of a long descriptor: the packed header word and
      each signed member stored in its unit. */
  function EncodeLong(l: LongTypeDescriptor): (img: LongImage)
    ensures img.Valid()
    ensures Signed16(img.name) == l.longName && Signed16(img.size) == l.longSize
    ensures Signed32(img.number) == l.longNumber
  {
    Pow2Table();
    StoreTwosComplement(l.longName, 16);
    StoreTwosComplement(l.longSize, 16);
    StoreTwosComplement(l.longNumber, 32);
    LongImage(PackType(l.header), Store(l.longName, 16), Store(l.longSize, 16), Store(l.longNumber, 32))
  }

  /** Storing a value that fits a signed type of `width` bits gives its
      two's-complement unit. */
  lemma StoreTwosComplement(v: int, width: nat)
    requires width > 0
    requires -(Pow2(width - 1) as int) <= v < Pow2(width - 1)
    ensures Store(v, width) == if v >= 0 then v else v + Pow2(width)
  {
    assert Pow2(width) == 2 * Pow2(width - 1);
    if v >= 0 {
      DivModUnique(v, Pow2(width), 0, v);
    } else {
      DivModUnique(v, Pow2(width), -1, v + Pow2(width));
    }
  }

  function DecodeLong(img: LongImage): (l: LongTypeDescriptor)
    requires img.Valid()
    ensures l.Valid()
  {
    LongTypeDescriptor(UnpackType(img.header), Signed16(img.name), Signed16(img.size), Signed32(img.number))
  }

  lemma LongRoundTrip(l: LongTypeDescriptor)
    requires l.Valid()
    ensures DecodeLong(EncodeLong(l)) == l
  {
    TypeRoundTrip(l.header);
  }

  lemma LongImageRoundTrip(img: LongImage)
    requires img.Valid()
    ensures EncodeLong(DecodeLong(img)) == img
  {
    Pow2Table();
    TypeWordRoundTrip(img.header);
  }

  /** A short descriptor can carry exactly the counts 0 .. 4095. */
  lemma ShortFormCounts(n: int)
    ensures (exists w: uint32 :: UnpackType(w).number == n) <==> 0 <= n < 0x1000
  {
    if 0 <= n < 0x1000 {
      var d := TypeDescriptor(0, 0, n, 0, 0, 0, 0);
      TypeRoundTrip(d);
      assert UnpackType(PackType(d)).number == n;
    }
  }

  /** Every value a short descriptor carries also fits the long fields. */
  lemma LongFormWidens(w: uint32)
    ensures exists l: LongTypeDescriptor ::
      && l.header == UnpackType(w)
      && l.longName == UnpackType(w).name
      && l.longSize == UnpackType(w).size
      && l.longNumber == UnpackType(w).number
  {
    var d := UnpackType(w);
    var l := LongTypeDescriptor(d, d.name, d.size, d.number);
    assert l.header == d;
  }

  /** Counts from 4096 up to the largest `int` fit only the long form. */
  lemma CountNeedsLongForm(n: int)
    requires 0x1000 <= n < 0x8000_0000
    ensures forall w: uint32 :: UnpackType(w).number != n
    ensures exists img: LongImage :: img.Valid() && DecodeLong(img).longNumber == n
  {
    ShortFormCounts(n);
    var l := LongTypeDescriptor(TypeDescriptor(0, 0, 0, 0, 1, 0, 0), 0, 0, n);
    LongRoundTrip(l);
    var img := EncodeLong(l);
    assert DecodeLong(img).longNumber == n;
  }
}
