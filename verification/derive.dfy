/** The `Pack` / `Unpack` derive macros.

    A derived struct codec packs its fields one after the other in
    declaration order and unpacks them in the same order, stopping at the
    first field that fails; a unit struct packs to nothing and unpacks
    without reading. A derived enum codec needs a `#[pack(<int type>)]`
    attribute and unit variants only; it writes the variant's discriminant
    converted `as` the integer type and reads an integer of that type,
    answering the first variant whose converted discriminant matches or
    `UnexpectedValue` with the integer read.

    The model describes a struct declaration by the `Pack`/`Unpack` impls
    of its fields' types rather than by Rust tokens, and a value of a
    struct by the sequence of its field values. */
module Derive {
  import opened Bytes
  import opened Wrappers
  import opened Wire

  // ---------------------------------------------------------------------
  // Field shapes and their codecs
  // ---------------------------------------------------------------------

  /** The unsigned integer types that have a `Pack`/`Unpack` impl. */
  datatype IntWidth = W8 | W16 | W32 | W128

  function Size(w: IntWidth): (n: nat)
    ensures n in {1, 2, 4, 16}
  {
    match w
    case W8 => 1
    case W16 => 2
    case W32 => 4
    case W128 => 16
  }

  /** The type named by the identifier in `#[pack(..)]`, when the generated
      `<ty>::unpack` and `as ty` exist for it. */
  function IntTypeNamed(ident: string): (r: Option<IntWidth>)
    ensures r.Some? <==> ident in ["u8", "u16", "u32", "u128"]
    ensures r == Some(W16) <==> ident == "u16"
  {
    if ident == "u8" then Some(W8)
    else if ident == "u16" then Some(W16)
    else if ident == "u32" then Some(W32)
    else if ident == "u128" then Some(W128)
    else None
  }

  /** A field's value, whatever the field's type. */
  datatype FieldValue =
    | IntValue(n: nat)
    | BoolValue(b: bool)
    | BytesValue(bs: bytes)
    | OptionValue(o: Option<FieldValue>)
    | StructValue(fields: seq<FieldValue>)

  /** The `Pack` and `Unpack` impls of a field's type. The derived code
      calls these on every field and knows nothing else about the type. */
  datatype Field = Field(enc: FieldValue -> bytes, dec: bytes -> Parsed<FieldValue>)

  /** A value of the unsigned integer type of width `w`. */
  predicate IsInt(w: IntWidth, v: FieldValue)
  {
    v.IntValue? && v.n < Pow256(Size(w))
  }

  /** `u8`, `u16`, `u32`, `u128`: little-endian, exactly the width. */
  function IntCodec(w: IntWidth): Field
  {
    Field((v: FieldValue) => if IsInt(w, v) then ToLE(v.n, Size(w)) else [],
          (s: bytes) => match DecodeUInt(Size(w), s)
               case Ok(n, rest) => Ok(IntValue(n), rest)
               case Err(e, rest) => Err(e, rest))
  }

  /** `bool`: one byte, any non-zero byte reading as true. */
  function BoolCodec(): Field
  {
    Field((v: FieldValue) => if v.BoolValue? then EncodeBool(v.b) else [],
          (s: bytes) => match DecodeBool(s)
               case Ok(b, rest) => Ok(BoolValue(b), rest)
               case Err(e, rest) => Err(e, rest))
  }

  /** `[u8; n]` (and `Address`, which is `[u8; 6]`): the bytes as they are,
      read with `fill`. */
  function ArrayCodec(n: nat): Field
  {
    Field((v: FieldValue) => if v.BytesValue? && |v.bs| == n then EncodeArray(v.bs) else [],
          (s: bytes) => match DecodeArray(n, s)
               case Ok(b, rest) => Ok(BytesValue(b), rest)
               case Err(e, rest) => Err(e, rest))
  }

  /** `Box<[u8]>`: the bytes with no length, read to the end. */
  function BlobCodec(): Field
  {
    Field((v: FieldValue) => if v.BytesValue? then EncodeRaw(v.bs) else [],
          (s: bytes) => match DecodeRaw(s)
               case Ok(b, rest) => Ok(BytesValue(b), rest)
               case Err(e, rest) => Err(e, rest))
  }

  /** `Option<T>` around the codec of `T`. */
  function OptionCodec(inner: Field): Field
  {
    Field((v: FieldValue) => if v.OptionValue? then EncodeOption(inner.enc, v.o) else [],
          (s: bytes) => match DecodeOption(inner.dec, s)
               case Ok(o, rest) => Ok(OptionValue(o), rest)
               case Err(e, rest) => Err(e, rest))
  }

  /** A field whose type is itself a derived struct. */
  function NestedCodec(fs: seq<Field>): Field
  {
    Field((v: FieldValue) => if v.StructValue? && |v.fields| == |fs| then EncodeStruct(fs, v.fields) else [],
          (s: bytes) => match DecodeStruct(fs, s)
               case Ok(vs, rest) => Ok(StructValue(vs), rest)
               case Err(e, rest) => Err(e, rest))
  }

  // ---------------------------------------------------------------------
  // Structs: unit, tuple and named fields alike
  // ---------------------------------------------------------------------

  /** The generated `pack`: every field's bytes in declaration order. */
  function EncodeStruct(fs: seq<Field>, vs: seq<FieldValue>): (r: bytes)
    requires |fs| == |vs|
    decreases |fs|
  {
    if |fs| == 0 then []
    else fs[0].enc(vs[0]) + EncodeStruct(fs[1..], vs[1..])
  }

  /** The generated `unpack`: every field in declaration order, returning
      the first field's error through `?`. */
  function DecodeStruct(fs: seq<Field>, s: bytes): (r: Parsed<seq<FieldValue>>)
    ensures r.Ok? ==> |r.value| == |fs|
    ensures |fs| == 0 ==> r == Ok([], s)
    ensures |fs| > 0 && fs[0].dec(s).Err? ==> r == Err(fs[0].dec(s).error, fs[0].dec(s).rest)
    ensures |fs| > 0 && r.Ok? ==> fs[0].dec(s).Ok? && r.value[0] == fs[0].dec(s).value
    decreases |fs|
  {
    if |fs| == 0 then Ok([], s)
    else
      match fs[0].dec(s)
      case Err(e, rest) => Err(e, rest)
      case Ok(v, rest) =>
        match DecodeStruct(fs[1..], rest)
        case Err(e, rest') => Err(e, rest')
        case Ok(vs, rest') => Ok([v] + vs, rest')
  }

  /** Field i reads its value back from its own bytes followed by the bytes
      of the fields after it and then `t`. */
  ghost predicate FieldsRoundTrip(fs: seq<Field>, vs: seq<FieldValue>, t: bytes)
    requires |fs| == |vs|
  {
    forall i | 0 <= i < |fs| :: RoundTripAt(fs[i].enc, fs[i].dec, vs[i], EncodeStruct(fs[i + 1..], vs[i + 1..]) + t)
  }

  /** Unpacking what was packed gives the same field values back, and
      leaves `t` untouched, when every field reads back in its place. */
  lemma {:induction false} StructRoundTrip(fs: seq<Field>, vs: seq<FieldValue>, t: bytes)
    requires |fs| == |vs| && FieldsRoundTrip(fs, vs, t)
    ensures DecodeStruct(fs, EncodeStruct(fs, vs) + t) == Ok(vs, t)
    decreases |fs|
  {
    if |fs| > 0 {
      var tail := EncodeStruct(fs[1..], vs[1..]);
      assert EncodeStruct(fs, vs) + t == fs[0].enc(vs[0]) + (tail + t);
      assert RoundTripAt(fs[0].enc, fs[0].dec, vs[0], tail + t) by {
        assert fs[1..] == fs[0 + 1..] && vs[1..] == vs[0 + 1..];
      }
      forall i | 0 <= i < |fs[1..]|
        ensures RoundTripAt(fs[1..][i].enc, fs[1..][i].dec, vs[1..][i], EncodeStruct(fs[1..][i + 1..], vs[1..][i + 1..]) + t)
      {
        assert fs[1..][i] == fs[i + 1] && vs[1..][i] == vs[i + 1];
        assert fs[1..][i + 1..] == fs[i + 1 + 1..] && vs[1..][i + 1..] == vs[i + 1 + 1..];
      }
      StructRoundTrip(fs[1..], vs[1..], t);
      assert [vs[0]] + vs[1..] == vs;
    }
  }

  /** A field that reads its value back whatever follows it. */
  ghost predicate Delimited(f: Field, v: FieldValue)
  {
    forall t :: RoundTripAt(f.enc, f.dec, v, t)
  }

  /** A struct of self-delimiting fields reads back before anything. */
  lemma DelimitedStructRoundTrip(fs: seq<Field>, vs: seq<FieldValue>, t: bytes)
    requires |fs| == |vs| && forall i | 0 <= i < |fs| :: Delimited(fs[i], vs[i])
    ensures DecodeStruct(fs, EncodeStruct(fs, vs) + t) == Ok(vs, t)
  {
    StructRoundTrip(fs, vs, t);
  }

  /** A struct whose last field takes the rest (`Box<[u8]>`, as in
      `CommandComplete`) reads back when nothing follows it. */
  lemma TrailingBlobRoundTrip(fs: seq<Field>, vs: seq<FieldValue>, b: bytes)
    requires |fs| == |vs| && forall i | 0 <= i < |fs| :: Delimited(fs[i], vs[i])
    ensures DecodeStruct(fs + [BlobCodec()], EncodeStruct(fs + [BlobCodec()], vs + [BytesValue(b)]))
            == Ok(vs + [BytesValue(b)], [])
  {
    var fs', vs' := fs + [BlobCodec()], vs + [BytesValue(b)];
    forall i | 0 <= i < |fs'|
      ensures RoundTripAt(fs'[i].enc, fs'[i].dec, vs'[i], EncodeStruct(fs'[i + 1..], vs'[i + 1..]) + [])
    {
      if i == |fs| {
        assert fs'[i + 1..] == [] && vs'[i + 1..] == [];
        BlobFieldRoundTrip(b, []);
      } else {
        assert fs'[i] == fs[i] && vs'[i] == vs[i];
      }
    }
    StructRoundTrip(fs', vs', []);
    assert EncodeStruct(fs', vs') + [] == EncodeStruct(fs', vs');
  }

  // ---------------------------------------------------------------------
  // What each field type promises
  // ---------------------------------------------------------------------

  /** An integer field decodes exactly when its bytes are there, and what
      it decodes is a value of the type written out before the rest. */
  lemma IntFieldDecode(w: IntWidth, s: bytes)
    ensures IntCodec(w).dec(s).Ok? <==> |s| >= Size(w)
    ensures IntCodec(w).dec(s).Ok? ==>
              IsInt(w, IntCodec(w).dec(s).value)
              && s == IntCodec(w).enc(IntCodec(w).dec(s).value) + IntCodec(w).dec(s).rest
  {
  }

  lemma IntFieldRoundTrip(w: IntWidth, v: FieldValue)
    requires IsInt(w, v)
    ensures Delimited(IntCodec(w), v)
  {
    forall t ensures RoundTripAt(IntCodec(w).enc, IntCodec(w).dec, v, t) {
      UIntRoundTrip(v.n, Size(w), t);
    }
  }

  lemma BoolFieldRoundTrip(b: bool)
    ensures Delimited(BoolCodec(), BoolValue(b))
  {
    forall t ensures RoundTripAt(BoolCodec().enc, BoolCodec().dec, BoolValue(b), t) {
      BoolRoundTrip(b, t);
    }
  }

  /** `[u8; n]` reads back whatever follows, for n > 0; `[u8; 0]` never
      decodes. */
  lemma ArrayFieldRoundTrip(b: bytes)
    requires |b| > 0
    ensures Delimited(ArrayCodec(|b|), BytesValue(b))
    ensures ArrayCodec(0).dec([]).Err?
  {
    forall t ensures RoundTripAt(ArrayCodec(|b|).enc, ArrayCodec(|b|).dec, BytesValue(b), t) {
      ArrayRoundTrip(b, t);
    }
  }

  /** A `Box<[u8]>` field reads back exactly when nothing follows it. */
  lemma BlobFieldRoundTrip(b: bytes, t: bytes)
    ensures RoundTripAt(BlobCodec().enc, BlobCodec().dec, BytesValue(b), t) <==> t == []
  {
    var c := BlobCodec();
    assert c.enc(BytesValue(b)) == b;
    assert c.dec(b + t) == Ok(BytesValue(b + t), []);
    if t != [] {
      assert |b + t| > |b|;
    } else {
      assert b + t == b;
    }
  }

  /** `Some(x)` reads back where `x` does; `None` reads back exactly where
      the inner decoder reports `NoDataAvailable` without consuming. */
  lemma OptionFieldRoundTrip(inner: Field, o: Option<FieldValue>, t: bytes)
    ensures o.Some? && RoundTripAt(inner.enc, inner.dec, o.value, t) ==>
              RoundTripAt(OptionCodec(inner).enc, OptionCodec(inner).dec, OptionValue(o), t)
    ensures o.None? ==>
              (RoundTripAt(OptionCodec(inner).enc, OptionCodec(inner).dec, OptionValue(o), t)
               <==> inner.dec(t) == Err(NoDataAvailable, t))
  {
    assert [] + t == t;
  }

  /** A nested struct field reads back when its own fields do. */
  lemma NestedFieldRoundTrip(fs: seq<Field>, vs: seq<FieldValue>, t: bytes)
    requires |fs| == |vs| && FieldsRoundTrip(fs, vs, t)
    ensures RoundTripAt(NestedCodec(fs).enc, NestedCodec(fs).dec, StructValue(vs), t)
  {
    StructRoundTrip(fs, vs, t);
  }

  /** A `Box<[u8]>` field that is not the last one swallows the fields
      after it: `{ data: [1], n: 2u8 }` packs as `01 02` and the `u8`
      then finds no data. */
  lemma BlobNotLast()
    ensures EncodeStruct([BlobCodec(), IntCodec(W8)], [BytesValue([1]), IntValue(2)]) == [1, 2]
    ensures DecodeStruct([BlobCodec(), IntCodec(W8)], [1, 2]) == Err(NoDataAvailable, [])
  {
    assert ToLE(2, 1) == [2];
    assert EncodeStruct([IntCodec(W8)], [IntValue(2)]) == [2];
    assert DecodeArray(1, []) == Err(NoDataAvailable, []);
  }

  /** A `None` field that is not the last one is not written at all, so
      the next field's bytes are read as `Some`: `{ o: None, n: 7u8 }`
      packs as `07` and fails to read back. */
  lemma NoneNotLast()
    ensures EncodeStruct([OptionCodec(IntCodec(W8)), IntCodec(W8)], [OptionValue(None), IntValue(7)]) == [7]
    ensures DecodeStruct([OptionCodec(IntCodec(W8)), IntCodec(W8)], [7]) == Err(NoDataAvailable, [])
  {
    assert ToLE(7, 1) == [7];
    assert EncodeStruct([IntCodec(W8)], [IntValue(7)]) == [7];
    assert DecodeArray(1, [7]) == Ok([7], []);
    assert DecodeArray(1, []) == Err(NoDataAvailable, []);
    assert FromLE([7]) == 7;
  }

  /** A unit struct packs to nothing and unpacks from any input, reading
      nothing. */
  lemma UnitStruct(s: bytes)
    ensures EncodeStruct([], []) == []
    ensures DecodeStruct([], s) == Ok([], s)
  {
  }

  /** `Standard { f1: 0x0123, f2: true }` and `Tuple(0x0123, true)` pack to
      `23 01 01` and read back. */
  lemma StandardStructExample()
    ensures EncodeStruct([IntCodec(W16), BoolCodec()], [IntValue(0x0123), BoolValue(true)]) == [0x23, 0x01, 0x01]
    ensures DecodeStruct([IntCodec(W16), BoolCodec()], [0x23, 0x01, 0x01]) == Ok([IntValue(0x0123), BoolValue(true)], [])
  {
    assert 0x0123 % 256 == 0x23 && 0x0123 / 256 == 1;
    U16BoolStruct(0x0123, true);
  }

  /** A `{ u16, bool }` struct packs as the integer, low byte first, then
      the flag, and reads back. */
  lemma U16BoolStruct(n: u16, b: bool)
    ensures EncodeStruct([IntCodec(W16), BoolCodec()], [IntValue(n), BoolValue(b)]) == [n % 256, n / 256, if b then 1 else 0]
    ensures DecodeStruct([IntCodec(W16), BoolCodec()], [n % 256, n / 256, if b then 1 else 0]) == Ok([IntValue(n), BoolValue(b)], [])
  {
    var x: bytes := [n % 256, n / 256];
    var y: bytes := [if b then 1 else 0];
    assert IntCodec(W16).enc(IntValue(n)) == x by {
      assert Pow256(2) == 0x1_0000;
      assert ToLE(n, 2) == U16LE(n);
    }
    assert BoolCodec().enc(BoolValue(b)) == y;
    IntFieldRoundTrip(W16, IntValue(n));
    BoolFieldRoundTrip(b);
    TwoFields(IntCodec(W16), BoolCodec(), IntValue(n), BoolValue(b));
    TwoThenOne(n % 256, n / 256, if b then 1 else 0);
  }

  lemma TwoThenOne(x: byte, y: byte, z: byte)
    ensures [x, y] + [z] == [x, y, z]
  { }

  /** A struct of two self-delimiting fields packs as their bytes one after
      the other and reads back. */
  lemma TwoFields(f0: Field, f1: Field, v0: FieldValue, v1: FieldValue)
    requires Delimited(f0, v0) && Delimited(f1, v1)
    ensures EncodeStruct([f0, f1], [v0, v1]) == f0.enc(v0) + f1.enc(v1)
    ensures DecodeStruct([f0, f1], f0.enc(v0) + f1.enc(v1)) == Ok([v0, v1], [])
  {
    var fs, vs := [f0, f1], [v0, v1];
    assert fs[1..] == [f1] && vs[1..] == [v1];
    assert fs[1..][1..] == [] && vs[1..][1..] == [];
    assert EncodeStruct(fs[1..], vs[1..]) == f1.enc(v1) + EncodeStruct(fs[1..][1..], vs[1..][1..]);
    assert EncodeStruct(fs, vs) == f0.enc(v0) + EncodeStruct(fs[1..], vs[1..]);
    assert EncodeStruct(fs, vs) == f0.enc(v0) + (f1.enc(v1) + []);
    assert f0.enc(v0) + (f1.enc(v1) + []) == f0.enc(v0) + f1.enc(v1);
    DelimitedStructRoundTrip(fs, vs, []);
    assert EncodeStruct(fs, vs) + [] == EncodeStruct(fs, vs);
  }

  /** The command test's `MyCommand { f1: 0 }` packs its parameters to
      `00 00`. */
  lemma CommandParameterExample()
    ensures EncodeStruct([IntCodec(W16)], [IntValue(0)]) == [0x00, 0x00]
  {
    assert ToLE(0, 2) == [0x00, 0x00];
  }

  // ---------------------------------------------------------------------
  // Enums: the integer type from the attributes, discriminant conversion
  // ---------------------------------------------------------------------

  /** An outer attribute: its path and the tokens between its parentheses. */
  datatype Attr = Attr(path: string, args: seq<string>)

  predicate IsIdentStart(c: char)
  {
    ('a' <= c <= 'z') || ('A' <= c <= 'Z') || c == '_'
  }

  predicate IsIdentContinue(c: char)
  {
    IsIdentStart(c) || ('0' <= c <= '9')
  }

  /** The words syn's `Ident` parser refuses: `_`, the strict and reserved
      keywords of Rust 2018, and `Self`/`self`/`super`/`crate`. */
  const Keywords: set<string> := {
    "_", "abstract", "as", "async", "await", "become", "box", "break", "const",
    "continue", "crate", "do", "dyn", "else", "enum", "extern", "false", "final",
    "fn", "for", "if", "impl", "in", "let", "loop", "macro", "match", "mod",
    "move", "mut", "override", "priv", "pub", "ref", "return", "Self", "self",
    "static", "struct", "super", "trait", "true", "try", "type", "typeof",
    "unsafe", "unsized", "use", "virtual", "where", "while", "yield"
  }

  /** Every keyword is spelled with letters and `_` alone, so a token with a
      digit in it is never one. */
  predicate IsKeyword(t: string)
  {
    (forall i | 0 <= i < |t| :: IsIdentStart(t[i])) && t in Keywords
  }

  /** A token that parses as an `Ident`: an ASCII identifier that is not a
      keyword (a lone `_` included). */
  predicate IsIdent(t: string)
  {
    |t| > 0 && IsIdentStart(t[0]) && !IsKeyword(t)
    && forall i :: 1 <= i < |t| ==> IsIdentContinue(t[i])
  }

  /** `attr.parse_args::<Ident>()`: exactly one identifier. */
  predicate WellFormedPack(a: Attr)
  {
    |a.args| == 1 && IsIdent(a.args[0])
  }

  /** The `for attr in &item.attrs` loop: every `pack` attribute replaces
      the type found so far, and a malformed one ends the derive at once. */
  function PackType(attrs: seq<Attr>): (r: Outcome<Option<string>, ()>)
    ensures r.Failure? <==> exists i :: 0 <= i < |attrs| && attrs[i].path == "pack" && !WellFormedPack(attrs[i])
    ensures r == Success(None) <==> forall i :: 0 <= i < |attrs| ==> attrs[i].path != "pack"
    ensures r.Success? && r.value.Some? ==>
              exists i :: 0 <= i < |attrs| && attrs[i].path == "pack" && r.value.value == attrs[i].args[0]
                          && forall j :: i < j < |attrs| ==> attrs[j].path != "pack"
    decreases |attrs|
  {
    if |attrs| == 0 then Success(None)
    else
      var later := PackType(attrs[1..]);
      if attrs[0].path != "pack" then
        (assert forall i :: 1 <= i < |attrs| ==> attrs[i] == attrs[1..][i - 1];
         later)
      else if !WellFormedPack(attrs[0]) then Failure(())
      else if later == Success(None) then Success(Some(attrs[0].args[0]))
      else
        (assert forall i :: 1 <= i < |attrs| ==> attrs[i] == attrs[1..][i - 1];
         later)
  }

  /** A variant of an enum declaration; `unit` is false when it carries
      fields. Discriminants are arbitrary integers (`isize`). */
  datatype Variant = Variant(name: string, unit: bool, discriminant: int)

  /** `Self::X as ty` for an unsigned `ty`: the two's-complement value
      truncated to the type's width, which for negative discriminants is
      the Euclidean remainder. */
  function Truncate(d: int, w: IntWidth): (n: nat)
    ensures n < Pow256(Size(w))
    ensures 0 <= d < Pow256(Size(w)) ==> n == d
    ensures (n - d) % Pow256(Size(w)) == 0
  {
    var p := Pow256(Size(w));
    ModDifference(d, p);
    assert 0 <= d < p ==> d % p == d by {
      if 0 <= d < p {
        DivUnique(d, p, 0, d);
      }
    }
    d % p
  }

  /** The generated `pack` for variant `i`. */
  function EncodeEnum(w: IntWidth, vs: seq<Variant>, i: nat): (r: bytes)
    requires i < |vs|
    ensures |r| == Size(w) && FromLE(r) == Truncate(vs[i].discriminant, w)
  {
    FromToLE(Truncate(vs[i].discriminant, w), Size(w));
    ToLE(Truncate(vs[i].discriminant, w), Size(w))
  }

  /** The match arms in order: the index of the first variant whose
      converted discriminant is `v`. */
  function FirstMatch(w: IntWidth, vs: seq<Variant>, v: nat): (r: Option<nat>)
    ensures r.Some? ==> r.value < |vs| && Truncate(vs[r.value].discriminant, w) == v
    ensures r.Some? ==> forall j :: 0 <= j < r.value ==> Truncate(vs[j].discriminant, w) != v
    ensures r.None? <==> forall j :: 0 <= j < |vs| ==> Truncate(vs[j].discriminant, w) != v
    decreases |vs|
  {
    if |vs| == 0 then None
    else if Truncate(vs[0].discriminant, w) == v then Some(0)
    else
      var later := FirstMatch(w, vs[1..], v);
      TailIndex(vs);
      if later.None? then None else Some(later.value + 1)
  }

  /** Index j of the tail is index j + 1 of the whole. */
  lemma TailIndex<T>(s: seq<T>)
    requires s != []
    ensures forall j :: 1 <= j < |s| ==> s[j] == s[1..][j - 1]
  {
  }

  /** The generated `unpack`: a variant index, or `UnexpectedValue` with the
      integer read when no arm matches. */
  function DecodeEnum(w: IntWidth, vs: seq<Variant>, s: bytes): (r: Parsed<nat>)
    ensures r.Ok? ==> r.value < |vs| && DecodeUInt(Size(w), s).Ok?
                      && Truncate(vs[r.value].discriminant, w) == DecodeUInt(Size(w), s).value
                      && r.rest == DecodeUInt(Size(w), s).rest
    ensures r.Err? && r.error.UnexpectedValue? <==>
              DecodeUInt(Size(w), s).Ok?
              && forall j :: 0 <= j < |vs| ==> Truncate(vs[j].discriminant, w) != DecodeUInt(Size(w), s).value
    ensures r.Err? && r.error.UnexpectedValue? ==> r.error.value == DecodeUInt(Size(w), s).value
  {
    match DecodeUInt(Size(w), s)
    case Err(e, rest) => Err(e, rest)
    case Ok(v, rest) =>
      match FirstMatch(w, vs, v)
      case Some(i) => Ok(i, rest)
      case None => Err(UnexpectedValue(v), rest)
  }

  /** No two variants convert to the same integer. */
  predicate DistinctOnWire(w: IntWidth, vs: seq<Variant>)
  {
    forall i, j :: 0 <= i < j < |vs| ==> Truncate(vs[i].discriminant, w) != Truncate(vs[j].discriminant, w)
  }

  /** With distinct converted discriminants every variant reads back as
      itself. */
  lemma EnumRoundTrip(w: IntWidth, vs: seq<Variant>, i: nat, t: bytes)
    requires i < |vs| && DistinctOnWire(w, vs)
    ensures DecodeEnum(w, vs, EncodeEnum(w, vs, i) + t) == Ok(i, t)
  {
    var v := Truncate(vs[i].discriminant, w);
    UIntRoundTrip(v, Size(w), t);
    var m := FirstMatch(w, vs, v);
    assert m.Some? && m.value < |vs| && Truncate(vs[m.value].discriminant, w) == v;
    assert m.value == i;
  }

  /** Without that, a variant reads back as the first variant sharing its
      converted discriminant: an earlier arm shadows a later one. */
  lemma EnumFirstMatchWins(w: IntWidth, vs: seq<Variant>, i: nat, j: nat, t: bytes)
    requires j < i < |vs|
    requires Truncate(vs[j].discriminant, w) == Truncate(vs[i].discriminant, w)
    ensures DecodeEnum(w, vs, EncodeEnum(w, vs, i) + t).Ok?
    ensures DecodeEnum(w, vs, EncodeEnum(w, vs, i) + t).value <= j
    ensures DecodeEnum(w, vs, EncodeEnum(w, vs, i) + t).value != i
  {
    UIntRoundTrip(Truncate(vs[i].discriminant, w), Size(w), t);
  }

  /** The `unit-enum` test: `#[pack(u16)] enum { A = 0x0F, B = 0xF0 }`
      packs `A` to `0F 00` and reads it back; `0F 01` is no variant. */
  lemma UnitEnumExample()
    ensures EncodeEnum(W16, [Variant("A", true, 0x0F), Variant("B", true, 0xF0)], 0) == [0x0F, 0x00]
    ensures DecodeEnum(W16, [Variant("A", true, 0x0F), Variant("B", true, 0xF0)], [0x0F, 0x00]) == Ok(0, [])
  {
    var vs := [Variant("A", true, 0x0F), Variant("B", true, 0xF0)];
    assert ToLE(0x0F, 2) == [0x0F, 0x00];
    EnumRoundTrip(W16, vs, 0, []);
    assert [0x0F, 0x00] + [] == [0x0F, 0x00];
  }

  /** A value no variant converts to is `UnexpectedValue` carrying it. */
  lemma UnknownDiscriminantExample()
    ensures DecodeEnum(W16, [Variant("A", true, 0x0F), Variant("B", true, 0xF0)], [0x0F, 0x01]) == Err(UnexpectedValue(0x010F), [])
  {
    assert FromLE([0x0F, 0x01]) == 0x010F;
  }

  /** Conversion truncates: under `u8`, discriminant 0x10F packs as `0F`
      and -1 as `FF`. */
  lemma TruncationExample()
    ensures EncodeEnum(W8, [Variant("X", true, 0x10F)], 0) == [0x0F]
    ensures EncodeEnum(W8, [Variant("Y", true, -1)], 0) == [0xFF]
  {
  }

  // ---------------------------------------------------------------------
  // The derive itself
  // ---------------------------------------------------------------------

  /** A struct's fields (unit, tuple or named: all pack the same way) or an
      enum with its attributes and variants. Unions are not representable:
      the macros stop at `todo!()` for them. */
  datatype Decl =
    | StructDecl(fields: seq<Field>)
    | EnumDecl(attrs: seq<Attr>, variants: seq<Variant>)

  datatype Codec =
    | StructCodec(fields: seq<Field>)
    | EnumCodec(width: IntWidth, variants: seq<Variant>)

  /** Why a derive produces no codec: the two macro errors, a malformed
      `pack` argument, and an identifier that names no integer type with a
      `Pack` impl (the generated code then fails to compile). */
  datatype DeriveError =
    | BadPackArgument
    | NoPackSpecified
    | UnitVariantOnly(variant: string)
    | NotAnIntegerType(ident: string)

  /** The first variant that carries fields, if any. */
  function FirstNonUnit(vs: seq<Variant>): (r: Option<nat>)
    ensures r.Some? ==> r.value < |vs| && !vs[r.value].unit
                        && forall j :: 0 <= j < r.value ==> vs[j].unit
    ensures r.None? <==> forall j :: 0 <= j < |vs| ==> vs[j].unit
    decreases |vs|
  {
    if |vs| == 0 then None
    else if !vs[0].unit then Some(0)
    else
      match FirstNonUnit(vs[1..])
      case None =>
        assert forall j :: 1 <= j < |vs| ==> vs[j] == vs[1..][j - 1];
        None
      case Some(k) =>
        assert forall j :: 1 <= j < |vs| ==> vs[j] == vs[1..][j - 1];
        Some(k + 1)
  }

  function Derive(d: Decl): (r: Outcome<Codec, DeriveError>)
    ensures d.StructDecl? ==> r == Success(StructCodec(d.fields))
    ensures d.EnumDecl? && r.Success? ==>
              r.value.EnumCodec? && r.value.variants == d.variants
              && (forall j :: 0 <= j < |d.variants| ==> d.variants[j].unit)
              && PackType(d.attrs).Success? && PackType(d.attrs).value.Some?
              && IntTypeNamed(PackType(d.attrs).value.value) == Some(r.value.width)
    ensures d.EnumDecl? ==> (r == Failure(NoPackSpecified) <==> PackType(d.attrs) == Success(None))
    ensures d.EnumDecl? && r.Failure? && r.error.UnitVariantOnly? ==>
              PackType(d.attrs).Success? && PackType(d.attrs).value.Some?
  {
    match d
    case StructDecl(fs) => Success(StructCodec(fs))
    case EnumDecl(attrs, vs) =>
      match PackType(attrs)
      case Failure(_) => Failure(BadPackArgument)
      case Success(None) => Failure(NoPackSpecified)
      case Success(Some(ident)) =>
        match FirstNonUnit(vs)
        case Some(k) => Failure(UnitVariantOnly(vs[k].name))
        case None =>
          match IntTypeNamed(ident)
          case None => Failure(NotAnIntegerType(ident))
          case Some(w) => Success(EnumCodec(w, vs))
  }

  /** The last well-formed `pack` attribute decides the type. */
  lemma LastPackWins()
    ensures Derive(EnumDecl([Attr("pack", ["u8"]), Attr("derive", []), Attr("pack", ["u16"])],
                            [Variant("A", true, 0x0F)]))
            == Success(EnumCodec(W16, [Variant("A", true, 0x0F)]))
  {
    var a := [Attr("pack", ["u8"]), Attr("derive", []), Attr("pack", ["u16"])];
    assert !IsIdentStart("u16"[1]) && !IsIdentStart("u8"[1]);
    assert PackType(a[2..]) == Success(Some("u16"));
    assert PackType(a[1..]) == Success(Some("u16"));
  }

  /** A `pack` attribute that is not a single identifier fails the derive,
      even after a good one. */
  lemma BadPackArgumentExample()
    ensures Derive(EnumDecl([Attr("pack", ["u16"]), Attr("pack", ["u16", ","])], [Variant("A", true, 0)]))
            == Failure(BadPackArgument)
  {
    var b := [Attr("pack", ["u16"]), Attr("pack", ["u16", ","])];
    assert PackType(b[1..]) == Failure(());
  }

  /** A keyword is not an identifier: `#[pack(self)]` fails the derive even
      when a good `pack` attribute follows it, and `#[pack(type)]` is a bad
      argument rather than an unknown integer type. */
  lemma KeywordPackArgumentExample()
    ensures Derive(EnumDecl([Attr("pack", ["self"]), Attr("pack", ["u16"])], [Variant("A", true, 0)]))
            == Failure(BadPackArgument)
    ensures Derive(EnumDecl([Attr("pack", ["type"])], [Variant("A", true, 0)])) == Failure(BadPackArgument)
  {
    assert "self" in Keywords && "type" in Keywords;
    var a := [Attr("pack", ["self"]), Attr("pack", ["u16"])];
    assert !WellFormedPack(a[0]);
  }

  /** A missing attribute is reported before any non-unit variant. */
  lemma NoPackSpecifiedExample()
    ensures Derive(EnumDecl([], [Variant("A", false, 0)])) == Failure(NoPackSpecified)
  {
  }

  /** The first variant with fields is named in the error. */
  lemma UnitVariantOnlyExample()
    ensures Derive(EnumDecl([Attr("pack", ["u16"])], [Variant("A", true, 0), Variant("B", false, 1)]))
            == Failure(UnitVariantOnly("B"))
  {
    assert !IsIdentStart("u16"[1]);
    var vs := [Variant("A", true, 0), Variant("B", false, 1)];
    assert FirstNonUnit(vs[1..]) == Some(0);
  }

  /** An identifier with no unsigned `Pack` impl yields no codec. */
  lemma NotAnIntegerTypeExample()
    ensures Derive(EnumDecl([Attr("pack", ["u64"])], [Variant("A", true, 0)]))
            == Failure(NotAnIntegerType("u64"))
  {
    assert !IsIdentStart("u64"[1]);
  }

  /** The derived codec of a declaration, on a value index or field values:
      whatever a successful derive gives, unpacking inverts packing. */
  lemma DerivedEnumRoundTrip(d: Decl, i: nat, t: bytes)
    requires Derive(d).Success? && Derive(d).value.EnumCodec?
    requires i < |d.variants| && DistinctOnWire(Derive(d).value.width, d.variants)
    ensures DecodeEnum(Derive(d).value.width, d.variants, EncodeEnum(Derive(d).value.width, d.variants, i) + t) == Ok(i, t)
  {
    EnumRoundTrip(Derive(d).value.width, d.variants, i, t);
  }
}
