/**
 * `#[derive(WireMessage)]` on a struct: the checks the derive makes on the
 * struct's attributes and fields, and the behaviour of the `encode` and
 * `decode` it generates.
 *
 * A message is the big-endian `u16` type tag `MSG_TYPE`, then the struct's
 * fields in declaration order: a plain field through its type's field codec,
 * a field marked `#[tlv_type = N]` (an `Option<T>`) through its type's TLV
 * codec with extension type `N`, written only when it is `Some`. The field
 * codecs themselves are not part of the generated code; here they are the
 * four functions of a `Codec`, about which only the predicates `Reads` and
 * `RoundTrips` are taken as hypotheses where a property needs them.
 */
module WireMsg {
  import opened Common
  import opened Syntax
  import opened Io

  // ---------------------------------------------------------------------
  // What the derive extracts from the struct
  // ---------------------------------------------------------------------

  /** How the generated code names a field: `self.name` or `self.0`. */
  datatype Member = ByName(id: string) | ByIndex(index: nat)

  /** One field of the generated impl: its accessor, its declared type (which
      selects the field codec) and its TLV extension type, if any. */
  datatype FieldSpec = FieldSpec(member: Member, ty: Type, tlv: Option<u64>)

  /** The generated `impl WireMessage`: `MSG_TYPE` and the field table that
      `encode` and `decode` walk. */
  datatype WireMessageImpl = WireMessageImpl(msgType: u16, fields: seq<FieldSpec>)

  /** The literal of the struct's `#[msg_type = ...]`: the first attribute of
      that form wins; without one the derive panics. */
  function MsgTypeAttr(attrs: seq<Attribute>): (r: Result<Lit, DeriveError>)
    ensures r.Err? <==> forall j :: 0 <= j < |attrs| ==> !IsNameValue(attrs[j], "msg_type")
    ensures r.Err? ==> r.error == MissingMsgType
    ensures r.Ok? ==> exists i :: 0 <= i < |attrs| && attrs[i] == Parsed(NameValue("msg_type", r.value))
                                  && forall j :: 0 <= j < i ==> !IsNameValue(attrs[j], "msg_type")
  {
    match FindNameValue(attrs, "msg_type")
    case None => Err(MissingMsgType)
    case Some(i) => Ok(attrs[i].meta.lit)
  }

  /** The value `const MSG_TYPE: u16 = #lit;` gets, when the compiler accepts
      the literal as a `u16`. */
  function MsgTypeValue(lit: Lit): (r: Option<u16>)
    ensures r.Some? <==> lit.IntLit? && lit.digits < 0x1_0000
    ensures r.Some? ==> r.value == lit.digits
  {
    if lit.IntLit? && lit.digits < 0x1_0000 then Some(lit.digits) else None
  }

  /** The field's `#[tlv_type = N]`: the first attribute of that form decides;
      its literal must be an integer that fits a `u64`. */
  function TlvAttr(attrs: seq<Attribute>): (r: Result<Option<u64>, DeriveError>)
    ensures r == Ok(None) <==> forall j :: 0 <= j < |attrs| ==> !IsNameValue(attrs[j], "tlv_type")
    ensures r.Err? ==> r.error == TlvTypeNotU64
    ensures r.Ok? && r.value.Some? ==>
      exists i :: 0 <= i < |attrs| && attrs[i] == Parsed(NameValue("tlv_type", IntLit(r.value.value)))
                  && forall j :: 0 <= j < i ==> !IsNameValue(attrs[j], "tlv_type")
    ensures FindNameValue(attrs, "tlv_type").Some? ==>
      var lit := attrs[FindNameValue(attrs, "tlv_type").value].meta.lit;
      (r.Ok? <==> lit.IntLit? && lit.digits < 0x1_0000_0000_0000_0000)
  {
    match FindNameValue(attrs, "tlv_type")
    case None => Ok(None)
    case Some(i) =>
      var lit := attrs[i].meta.lit;
      if lit.IntLit? && lit.digits < 0x1_0000_0000_0000_0000 then Ok(Some(lit.digits))
      else Err(TlvTypeNotU64)
  }

  /** Only the first `#[tlv_type = ..]` counts: after attributes of other
      kinds, its literal alone decides, and later ones are ignored. */
  lemma TlvAttrFirstDecides(pre: seq<Attribute>, lit: Lit, post: seq<Attribute>)
    requires forall j :: 0 <= j < |pre| ==> !IsNameValue(pre[j], "tlv_type")
    ensures TlvAttr(pre + [Parsed(NameValue("tlv_type", lit))] + post) ==
      if lit.IntLit? && lit.digits < 0x1_0000_0000_0000_0000 then Ok(Some(lit.digits)) else Err(TlvTypeNotU64)
  {
    var attrs := pre + [Parsed(NameValue("tlv_type", lit))] + post;
    assert attrs[|pre|] == Parsed(NameValue("tlv_type", lit));
    assert forall j :: 0 <= j < |pre| ==> attrs[j] == pre[j];
    assert FindNameValue(attrs, "tlv_type") == Some(|pre|);
  }

  /** The type is a path whose last segment is `Option<T, ...>` with a type `T`. */
  predicate IsOptionPath(ty: Type)
  {
    && ty.PathType?
    && |ty.segments| > 0
    && var last := ty.segments[|ty.segments| - 1];
    && last.ident == "Option"
    && last.arguments.AngleBracketed?
    && |last.arguments.args| > 0
    && last.arguments.args[0].TypeArg?
  }

  /** The check that a TLV field is declared `Option<T>`; yields `T`. */
  function OptionInner(ty: Type): (r: Result<Type, DeriveError>)
    ensures r.Ok? <==> IsOptionPath(ty)
    ensures r.Err? ==> r.error == if ty.PathType? && ty.segments == [] then MissingType else TlvValueNotOption
  {
    match ty
    case OtherType => Err(TlvValueNotOption)
    case PathType(segs) =>
      if segs == [] then Err(MissingType)
      else
        var last := segs[|segs| - 1];
        if last.ident != "Option" then Err(TlvValueNotOption)
        else match last.arguments
          case AngleBracketed(args) =>
            if args == [] then Err(TlvValueNotOption)
            else (match args[0]
                  case TypeArg(t) => Ok(t)
                  case OtherArg => Err(TlvValueNotOption))
          case _ => Err(TlvValueNotOption)
  }

  /** One step of the field fold: `prev` is the extension type of the field
      before (the closure's `tlv`), the result is this field's (`new_tlv`).
      A plain field after a TLV field, or a TLV type below the previous one,
      is refused; an equal type is not. */
  function CheckField(prev: Option<u64>, f: Field): (r: Result<Option<u64>, DeriveError>)
    ensures TlvAttr(f.attrs).Err? ==> r == Err(TlvAttr(f.attrs).error)
    ensures TlvAttr(f.attrs).Ok? ==> var next := TlvAttr(f.attrs).value;
      && (prev.Some? && next.None? ==> r == Err(TlvAfterExpectedFields))
      && (prev.Some? && next.Some? && prev.value > next.value ==> r == Err(TlvNotMonotonic))
    ensures r.Ok? <==>
      && TlvAttr(f.attrs).Ok?
      && (prev.Some? ==> TlvAttr(f.attrs).value.Some? && prev.value <= TlvAttr(f.attrs).value.value)
      && (TlvAttr(f.attrs).value.Some? ==> IsOptionPath(f.ty))
    ensures r.Ok? ==> r.value == TlvAttr(f.attrs).value
    ensures r.Err? && TlvAttr(f.attrs).Ok? && (prev.Some? ==> TlvAttr(f.attrs).value.Some? && prev.value <= TlvAttr(f.attrs).value.value) ==>
      r == Err(OptionInner(f.ty).error)
  {
    match TlvAttr(f.attrs)
    case Err(e) => Err(e)
    case Ok(next) =>
      if prev.Some? && next.None? then Err(TlvAfterExpectedFields)
      else if prev.Some? && next.Some? && prev.value > next.value then Err(TlvNotMonotonic)
      else if next.Some? then
        (match OptionInner(f.ty)
         case Err(e) => Err(e)
         case Ok(_) => Ok(next))
      else Ok(next)
  }

  /** The field's extension type (`None` also when its attribute is refused). */
  function TlvOf(f: Field): Option<u64>
  {
    match TlvAttr(f.attrs)
    case Ok(k) => k
    case Err(_) => None
  }

  /** The accessor of the `i`-th field. */
  function MemberOf(f: Field, i: nat): (m: Member)
    ensures m.ByName? <==> f.ident.Some?
    ensures m.ByName? ==> m.id == f.ident.value
    ensures m.ByIndex? ==> m.index == i
  {
    if f.ident.Some? then ByName(f.ident.value) else ByIndex(i)
  }

  function SpecOf(f: Field, i: nat): FieldSpec
  {
    FieldSpec(MemberOf(f, i), f.ty, TlvOf(f))
  }

  /** The extension types of the fields, in order. */
  function Kinds(fields: seq<Field>): (ks: seq<Option<u64>>)
    ensures |ks| == |fields| && forall i :: 0 <= i < |fields| ==> ks[i] == TlvOf(fields[i])
  {
    seq(|fields|, i requires 0 <= i < |fields| => TlvOf(fields[i]))
  }

  /** No plain field after a TLV field, and TLV types never decrease. */
  ghost predicate NonDecreasing(ks: seq<Option<u64>>)
  {
    forall i, j :: 0 <= i < j < |ks| && ks[i].Some? ==> ks[j].Some? && ks[i].value <= ks[j].value
  }

  /** The fields the derive accepts, stated over the whole list: every
      `tlv_type` is a `u64`, every TLV field is an `Option`, no plain field
      comes after a TLV field and TLV types never decrease. */
  ghost predicate Accepts(fields: seq<Field>)
  {
    && (forall i :: 0 <= i < |fields| ==> TlvAttr(fields[i].attrs).Ok?)
    && (forall i :: 0 <= i < |fields| && TlvOf(fields[i]).Some? ==> IsOptionPath(fields[i].ty))
    && NonDecreasing(Kinds(fields))
  }

  /** The value of the fold's `tlv` after the given fields. */
  function LastTlv(fields: seq<Field>): Option<u64>
  {
    if fields == [] then None else TlvOf(fields[|fields| - 1])
  }

  /** The layout the derive guarantees: plain fields first, then TLV fields in
      non-decreasing order of extension type. */
  ghost predicate LayoutOk(fs: seq<FieldSpec>)
  {
    forall i, j :: 0 <= i < j < |fs| && fs[i].tlv.Some? ==>
      fs[j].tlv.Some? && fs[i].tlv.value <= fs[j].tlv.value
  }

  /** The layout BOLT #1 asks for: as `LayoutOk`, with strictly increasing
      extension types. */
  ghost predicate StrictLayout(fs: seq<FieldSpec>)
  {
    forall i, j :: 0 <= i < j < |fs| && fs[i].tlv.Some? ==>
      fs[j].tlv.Some? && fs[i].tlv.value < fs[j].tlv.value
  }

  lemma NonDecreasingSnoc(ks: seq<Option<u64>>, k: Option<u64>)
    requires NonDecreasing(ks)
    requires ks != [] && ks[|ks| - 1].Some? ==> k.Some? && ks[|ks| - 1].value <= k.value
    ensures NonDecreasing(ks + [k])
  {
    var q := ks + [k];
    forall a, b | 0 <= a < b < |q| && q[a].Some?
      ensures q[b].Some? && q[a].value <= q[b].value
    {
      if b == |ks| && a < |ks| - 1 {
        assert ks[a].Some? && ks[|ks| - 1].Some? && ks[a].value <= ks[|ks| - 1].value;
      }
    }
  }

  /** The fold step accepts a field exactly when its `tlv_type` is a `u64`, it
      is not a plain field after a TLV field, its type is not below the
      previous one, and a TLV field is an `Option`; it then reports the
      field's extension type. */
  lemma CheckFieldAccepts(prev: Option<u64>, f: Field)
    ensures CheckField(prev, f).Ok? <==>
      && TlvAttr(f.attrs).Ok?
      && (prev.Some? ==> TlvOf(f).Some? && prev.value <= TlvOf(f).value)
      && (TlvOf(f).Some? ==> IsOptionPath(f.ty))
    ensures CheckField(prev, f).Ok? ==> CheckField(prev, f).value == TlvOf(f)
  {
  }

  /** A field that passes the fold step after the accepted fields `p` extends
      them to accepted fields, with the extension type the step reports. */
  lemma AcceptsSnoc(p: seq<Field>, f: Field)
    requires Accepts(p) && CheckField(LastTlv(p), f).Ok?
    ensures Accepts(p + [f])
    ensures TlvOf(f) == CheckField(LastTlv(p), f).value
  {
    CheckFieldAccepts(LastTlv(p), f);
    KindsSnoc(p, f);
    assert p != [] ==> Kinds(p)[|p| - 1] == LastTlv(p);
    NonDecreasingSnoc(Kinds(p), TlvOf(f));
    FieldChecksSnoc(p, f);
  }

  lemma KindsSnoc(p: seq<Field>, f: Field)
    ensures Kinds(p + [f]) == Kinds(p) + [TlvOf(f)]
  {
    var q := p + [f];
    assert forall j :: 0 <= j < |p| ==> q[j] == p[j];
  }

  /** The per-field conditions of `Accepts` carry over to one more field. */
  lemma FieldChecksSnoc(p: seq<Field>, f: Field)
    requires forall i :: 0 <= i < |p| ==> TlvAttr(p[i].attrs).Ok?
    requires forall i :: 0 <= i < |p| && TlvOf(p[i]).Some? ==> IsOptionPath(p[i].ty)
    requires TlvAttr(f.attrs).Ok? && (TlvOf(f).Some? ==> IsOptionPath(f.ty))
    ensures forall i :: 0 <= i < |p + [f]| ==> TlvAttr((p + [f])[i].attrs).Ok?
    ensures forall i :: 0 <= i < |p + [f]| && TlvOf((p + [f])[i]).Some? ==> IsOptionPath((p + [f])[i].ty)
  {
    var q := p + [f];
    assert forall j :: 0 <= j < |p| ==> q[j] == p[j];
    assert q[|p|] == f;
  }

  lemma AcceptsStep(fields: seq<Field>, i: nat)
    requires i < |fields| && Accepts(fields[..i])
    requires CheckField(LastTlv(fields[..i]), fields[i]).Ok?
    ensures Accepts(fields[..i + 1])
    ensures TlvOf(fields[i]) == CheckField(LastTlv(fields[..i]), fields[i]).value
  {
    assert fields[..i + 1] == fields[..i] + [fields[i]];
    AcceptsSnoc(fields[..i], fields[i]);
  }

  lemma AcceptedFieldPasses(fields: seq<Field>, i: nat)
    requires i < |fields| && Accepts(fields)
    ensures CheckField(LastTlv(fields[..i]), fields[i]).Ok?
  {
    var p := fields[..i];
    if i > 0 {
      assert p[i - 1] == fields[i - 1];
      assert Kinds(fields)[i - 1] == LastTlv(p) && Kinds(fields)[i] == TlvOf(fields[i]);
    }
    CheckFieldAccepts(LastTlv(p), fields[i]);
  }

  lemma AcceptedLayout(fields: seq<Field>, specs: seq<FieldSpec>)
    requires Accepts(fields) && |specs| == |fields|
    requires forall i :: 0 <= i < |fields| ==> specs[i] == SpecOf(fields[i], i)
    ensures LayoutOk(specs)
  {
    var ks := Kinds(fields);
    assert forall i :: 0 <= i < |specs| ==> specs[i].tlv == ks[i];
  }

  lemma SpecsSnoc(fields: seq<Field>, specs: seq<FieldSpec>, i: nat)
    requires i < |fields| && |specs| == i
    requires forall k :: 0 <= k < i ==> specs[k] == SpecOf(fields[k], k)
    ensures var q := specs + [SpecOf(fields[i], i)];
      |q| == i + 1 && forall k :: 0 <= k < i + 1 ==> q[k] == SpecOf(fields[k], k)
  {
  }

  /** The field fold of the derive (`field_mapper` applied left to right with
      the mutable `tlv`): it accepts exactly the fields `Accepts` describes,
      yields one entry per field, and otherwise stops at the first field whose
      step fails, with that step's error. */
  method ValidateFields(fields: seq<Field>) returns (r: Result<seq<FieldSpec>, DeriveError>)
    ensures r.Ok? <==> Accepts(fields)
    ensures r.Ok? ==> |r.value| == |fields| && LayoutOk(r.value)
    ensures r.Ok? ==> forall i :: 0 <= i < |fields| ==> r.value[i] == SpecOf(fields[i], i)
    ensures r.Err? ==> exists i :: 0 <= i < |fields| && Accepts(fields[..i])
                                  && CheckField(LastTlv(fields[..i]), fields[i]) == Err(r.error)
  {
    var tlv: Option<u64> := None;
    var specs: seq<FieldSpec> := [];
    var i := 0;
    while i < |fields|
      invariant 0 <= i <= |fields|
      invariant Accepts(fields[..i])
      invariant tlv == LastTlv(fields[..i])
      invariant |specs| == i && forall k :: 0 <= k < i ==> specs[k] == SpecOf(fields[k], k)
    {
      var step := CheckField(tlv, fields[i]);
      if step.Err? {
        if Accepts(fields) {
          AcceptedFieldPasses(fields, i);
        }
        return Err(step.error);
      }
      AcceptsStep(fields, i);
      SpecsSnoc(fields, specs, i);
      specs := specs + [FieldSpec(MemberOf(fields[i], i), fields[i].ty, step.value)];
      tlv := step.value;
      i := i + 1;
      assert fields[..i][i - 1] == fields[i - 1];
    }
    assert fields[..i] == fields;
    AcceptedLayout(fields, specs);
    r := Ok(specs);
  }

  /** `impl_trait_struct`: only structs are accepted; the `msg_type` attribute
      is looked up first, then the fields are folded, and finally the compiler
      must accept the literal as a `u16`. */
  method DeriveWireMessage(input: DeriveInput) returns (r: Result<WireMessageImpl, DeriveError>)
    ensures !input.data.StructData? ==> r == Err(NotAStruct)
    ensures input.data.StructData? && MsgTypeAttr(input.attrs).Err? ==> r == Err(MissingMsgType)
    ensures r.Ok? <==>
      && input.data.StructData?
      && MsgTypeAttr(input.attrs).Ok?
      && Accepts(FieldList(input.data.fields))
      && MsgTypeValue(MsgTypeAttr(input.attrs).value).Some?
    ensures r.Ok? ==> Some(r.value.msgType) == MsgTypeValue(MsgTypeAttr(input.attrs).value)
    ensures r.Ok? ==>
      var fields := FieldList(input.data.fields);
      && |r.value.fields| == |fields|
      && LayoutOk(r.value.fields)
      && forall i :: 0 <= i < |fields| ==> r.value.fields[i] == SpecOf(fields[i], i)
    ensures input.data.StructData? && MsgTypeAttr(input.attrs).Ok? && !Accepts(FieldList(input.data.fields)) ==>
      var fields := FieldList(input.data.fields);
      r.Err? && exists i :: 0 <= i < |fields| && Accepts(fields[..i])
                            && CheckField(LastTlv(fields[..i]), fields[i]) == Err(r.error)
    ensures (input.data.StructData? && MsgTypeAttr(input.attrs).Ok? && Accepts(FieldList(input.data.fields))
             && r.Err?) ==> r.error == MsgTypeNotU16
  {
    if !input.data.StructData? {
      return Err(NotAStruct);
    }
    var lit := MsgTypeAttr(input.attrs);
    if lit.Err? {
      return Err(lit.error);
    }
    var specs := ValidateFields(FieldList(input.data.fields));
    if specs.Err? {
      return Err(specs.error);
    }
    var num := MsgTypeValue(lit.value);
    if num.None? {
      return Err(MsgTypeNotU16);
    }
    r := Ok(WireMessageImpl(num.value, specs.value));
  }

  // ---------------------------------------------------------------------
  // The field codecs and message values
  // ---------------------------------------------------------------------

  /** The value of one field: a plain field holds a value, a TLV field an
      `Option`. */
  datatype Value<V> = Req(v: V) | Opt(o: Option<V>)

  /** `WireItemWriter::encode`, `WireItemReader::decode`,
      `TLVWireItemWriter::encode_tlv` and `TLVWireItemReader::decode_tlv`,
      each selected by the field's declared type. A decoder is given the bytes
      not yet consumed and reports the value and how many bytes it used. */
  datatype Codec<!V> = Codec(
    encode: (Type, V) -> seq<byte>,
    decode: (Type, seq<byte>) -> Result<(V, nat), IoError>,
    encodeTlv: (Type, V, u64) -> seq<byte>,
    decodeTlv: (Type, seq<byte>, u64) -> Result<(Option<V>, nat), IoError>)

  /** A decoder never uses more bytes than it was given. */
  ghost predicate Reads<V>(c: Codec<V>)
  {
    && (forall ty, s :: c.decode(ty, s).Ok? ==> c.decode(ty, s).value.1 <= |s|)
    && (forall ty, s, t :: c.decodeTlv(ty, s, t).Ok? ==> c.decodeTlv(ty, s, t).value.1 <= |s|)
  }

  /** What the field codecs are expected to promise: each decoder reads back
      exactly what its encoder wrote, whatever follows; and the TLV decoder for
      type `t` reports the field absent, using no bytes, at the end of the
      input or when the next record has a greater type. */
  ghost predicate RoundTrips<V(!new)>(c: Codec<V>)
  {
    && (forall ty, v, rest :: c.decode(ty, c.encode(ty, v) + rest) == Ok((v, |c.encode(ty, v)|)))
    && (forall ty, v, t, rest ::
          c.decodeTlv(ty, c.encodeTlv(ty, v, t) + rest, t) == Ok((Some(v), |c.encodeTlv(ty, v, t)|)))
    && (forall ty, t :: c.decodeTlv(ty, [], t) == Ok((None, 0)))
    && (forall ty, t, ty', v, t', rest :: t < t' ==>
          c.decodeTlv(ty, c.encodeTlv(ty', v, t') + rest, t) == Ok((None, 0)))
  }

  /** The value has the shape its field declares. */
  predicate FieldFits<V>(f: FieldSpec, x: Value<V>)
  {
    f.tlv.Some? <==> x.Opt?
  }

  /** A message value: one value per field, each of the declared shape. */
  ghost predicate Fits<V>(fs: seq<FieldSpec>, m: seq<Value<V>>)
  {
    |fs| == |m| && forall i :: 0 <= i < |fs| ==> FieldFits(fs[i], m[i])
  }

  // ---------------------------------------------------------------------
  // encode
  // ---------------------------------------------------------------------

  /** The bytes the generated `encode` writes for one field. */
  function EncodeField<V>(c: Codec<V>, f: FieldSpec, x: Value<V>): seq<byte>
    requires FieldFits(f, x)
  {
    match x
    case Req(v) => c.encode(f.ty, v)
    case Opt(None) => []
    case Opt(Some(v)) => c.encodeTlv(f.ty, v, f.tlv.value)
  }

  function EncodeFields<V>(c: Codec<V>, fs: seq<FieldSpec>, m: seq<Value<V>>): seq<byte>
    requires Fits(fs, m)
  {
    if fs == [] then [] else EncodeField(c, fs[0], m[0]) + EncodeFields(c, fs[1..], m[1..])
  }

  /** The whole encoded message: the type tag, then the fields. */
  function EncodeMessage<V>(c: Codec<V>, impl: WireMessageImpl, m: seq<Value<V>>): seq<byte>
    requires Fits(impl.fields, m)
  {
    ToBeBytes(impl.msgType) + EncodeFields(c, impl.fields, m)
  }

  /** The sink events one field causes: one write, or none for an absent TLV field. */
  function FieldEvent<V>(c: Codec<V>, f: FieldSpec, x: Value<V>): seq<SinkEvent>
    requires FieldFits(f, x)
  {
    if x.Opt? && x.o.None? then [] else [Write(EncodeField(c, f, x))]
  }

  function FieldEvents<V>(c: Codec<V>, fs: seq<FieldSpec>, m: seq<Value<V>>): seq<SinkEvent>
    requires Fits(fs, m)
  {
    if fs == [] then [] else FieldEvent(c, fs[0], m[0]) + FieldEvents(c, fs[1..], m[1..])
  }

  /** Everything the generated `encode` does to the sink. */
  function EncodeEvents<V>(c: Codec<V>, impl: WireMessageImpl, m: seq<Value<V>>): seq<SinkEvent>
    requires Fits(impl.fields, m)
  {
    [Write(ToBeBytes(impl.msgType))] + FieldEvents(c, impl.fields, m) + [Flush]
  }

  lemma {:induction false} FieldEventsSnoc<V>(c: Codec<V>, fs: seq<FieldSpec>, m: seq<Value<V>>, i: nat)
    requires Fits(fs, m) && i < |fs|
    ensures FieldEvents(c, fs[..i + 1], m[..i + 1]) == FieldEvents(c, fs[..i], m[..i]) + FieldEvent(c, fs[i], m[i])
  {
    if i == 0 {
      assert fs[..1][1..] == [] && m[..1][1..] == [];
    } else {
      assert fs[..i + 1][1..] == fs[1..][..i] && m[..i + 1][1..] == m[1..][..i];
      assert fs[..i][1..] == fs[1..][..i - 1] && m[..i][1..] == m[1..][..i - 1];
      FieldEventsSnoc(c, fs[1..], m[1..], i - 1);
    }
  }

  lemma {:induction false} EncodeFieldsSnoc<V>(c: Codec<V>, fs: seq<FieldSpec>, m: seq<Value<V>>, i: nat)
    requires Fits(fs, m) && i < |fs|
    ensures EncodeFields(c, fs[..i + 1], m[..i + 1]) == EncodeFields(c, fs[..i], m[..i]) + EncodeField(c, fs[i], m[i])
  {
    if i == 0 {
      assert fs[..1][1..] == [] && m[..1][1..] == [];
    } else {
      assert fs[..i + 1][1..] == fs[1..][..i] && m[..i + 1][1..] == m[1..][..i];
      assert fs[..i][1..] == fs[1..][..i - 1] && m[..i][1..] == m[1..][..i - 1];
      EncodeFieldsSnoc(c, fs[1..], m[1..], i - 1);
    }
  }

  /** The field writes put exactly the encoded fields on the wire and never flush. */
  lemma {:induction false} FieldEventsWrite<V>(c: Codec<V>, fs: seq<FieldSpec>, m: seq<Value<V>>)
    requires Fits(fs, m)
    ensures Written(FieldEvents(c, fs, m)) == EncodeFields(c, fs, m)
    ensures forall k :: 0 <= k < |FieldEvents(c, fs, m)| ==> FieldEvents(c, fs, m)[k].Write?
  {
    if fs != [] {
      FieldEventsWrite(c, fs[1..], m[1..]);
      WrittenAppend(FieldEvent(c, fs[0], m[0]), FieldEvents(c, fs[1..], m[1..]));
      assert Written(FieldEvent(c, fs[0], m[0])) == EncodeField(c, fs[0], m[0]);
    }
  }

  /** The generated `encode` writes the encoded message, in that order of
      writes, and flushes only once, after the last write. */
  lemma EncodeEventsWriteMessage<V>(c: Codec<V>, impl: WireMessageImpl, m: seq<Value<V>>)
    requires Fits(impl.fields, m)
    ensures Written(EncodeEvents(c, impl, m)) == EncodeMessage(c, impl, m)
    ensures var ev := EncodeEvents(c, impl, m);
      ev[|ev| - 1] == Flush && forall k :: 0 <= k < |ev| - 1 ==> ev[k].Write?
  {
    var fe := FieldEvents(c, impl.fields, m);
    FieldEventsWrite(c, impl.fields, m);
    WrittenAppend([Write(ToBeBytes(impl.msgType))] + fe, [Flush]);
    WrittenAppend([Write(ToBeBytes(impl.msgType))], fe);
  }

  /** The encoded message starts with `MSG_TYPE` in big-endian order. */
  lemma EncodeStartsWithTag<V>(c: Codec<V>, impl: WireMessageImpl, m: seq<Value<V>>)
    requires Fits(impl.fields, m)
    ensures |EncodeMessage(c, impl, m)| >= 2
    ensures FromBeBytes(EncodeMessage(c, impl, m)[0], EncodeMessage(c, impl, m)[1]) == impl.msgType
  {
    FromToBeBytes(impl.msgType);
  }

  /** The generated `encode`: writes the tag, then every plain field and every
      present TLV field in declaration order, then flushes; returns the sum of
      the byte counts. */
  method Encode<V>(c: Codec<V>, impl: WireMessageImpl, m: seq<Value<V>>, w: Sink) returns (count: nat)
    requires Fits(impl.fields, m)
    modifies w
    ensures w.events == old(w.events) + EncodeEvents(c, impl, m)
    ensures count == |EncodeMessage(c, impl, m)|
  {
    count := 0;
    var n := w.Write(ToBeBytes(impl.msgType));
    count := count + n;
    var i := 0;
    while i < |impl.fields|
      invariant 0 <= i <= |impl.fields|
      invariant w.events == old(w.events) + [Write(ToBeBytes(impl.msgType))]
                            + FieldEvents(c, impl.fields[..i], m[..i])
      invariant count == 2 + |EncodeFields(c, impl.fields[..i], m[..i])|
    {
      FieldEventsSnoc(c, impl.fields, m, i);
      EncodeFieldsSnoc(c, impl.fields, m, i);
      match m[i] {
        case Req(v) =>
          n := w.Write(c.encode(impl.fields[i].ty, v));
          count := count + n;
        case Opt(o) =>
          if o.Some? {
            n := w.Write(c.encodeTlv(impl.fields[i].ty, o.value, impl.fields[i].tlv.value));
            count := count + n;
          }
      }
      i := i + 1;
    }
    assert impl.fields[..i] == impl.fields && m[..i] == m;
    w.Flush();
  }

  // ---------------------------------------------------------------------
  // decode
  // ---------------------------------------------------------------------

  /** The generated read expression for one field: `decode` for a plain
      field, `decode_tlv` with the declared type for a TLV field. */
  function DecodeField<V>(c: Codec<V>, f: FieldSpec, s: seq<byte>): (r: Result<(Value<V>, nat), IoError>)
    requires Reads(c)
    ensures r.Ok? ==> FieldFits(f, r.value.0) && r.value.1 <= |s|
  {
    match f.tlv
    case None =>
      (match c.decode(f.ty, s)
       case Ok((v, n)) => Ok((Req(v), n))
       case Err(e) => Err(e))
    case Some(t) =>
      (match c.decodeTlv(f.ty, s, t)
       case Ok((o, n)) => Ok((Opt(o), n))
       case Err(e) => Err(e))
  }

  /** Puts `xs` before the values of a successful decode and adds `n` to its
      byte count; an error stays as it is. */
  function Prepend<V>(xs: seq<Value<V>>, n: nat, r: Result<(seq<Value<V>>, nat), IoError>)
    : Result<(seq<Value<V>>, nat), IoError>
  {
    match r
    case Ok((ys, k)) => Ok((xs + ys, n + k))
    case Err(e) => Err(e)
  }

  /** Decoding the fields in declaration order from `s`: the values and the
      number of bytes used, or the error of the first field that fails. */
  function DecodeFields<V>(c: Codec<V>, fs: seq<FieldSpec>, s: seq<byte>): (r: Result<(seq<Value<V>>, nat), IoError>)
    requires Reads(c)
    ensures r.Ok? ==> r.value.1 <= |s|
    decreases |fs|
  {
    if fs == [] then Ok(([], 0))
    else match DecodeField(c, fs[0], s)
      case Err(e) => Err(e)
      case Ok((x, n)) => Prepend([x], n, DecodeFields(c, fs[1..], s[n..]))
  }

  /** A successful decode yields one value per field, each of the shape its
      field declares: a plain value for a plain field, an option for a TLV
      field. */
  lemma {:induction false} DecodeFieldsFits<V>(c: Codec<V>, fs: seq<FieldSpec>, s: seq<byte>)
    requires Reads(c)
    ensures DecodeFields(c, fs, s).Ok? ==> Fits(fs, DecodeFields(c, fs, s).value.0)
    decreases |fs|
  {
    if fs != [] && DecodeFields(c, fs, s).Ok? {
      var x, n := DecodeField(c, fs[0], s).value.0, DecodeField(c, fs[0], s).value.1;
      var rest := DecodeFields(c, fs[1..], s[n..]);
      DecodeFieldsFits(c, fs[1..], s[n..]);
      var xs := DecodeFields(c, fs, s).value.0;
      assert xs == [x] + rest.value.0;
      forall i | 1 <= i < |fs| ensures FieldFits(fs[i], xs[i]) {
        assert fs[1..][i - 1] == fs[i] && xs[i] == rest.value.0[i - 1];
      }
    }
  }

  /** One step of `DecodeFields`: a first field that decodes to `x` using
      `n` bytes is followed by the decode of the other fields from the rest. */
  lemma DecodeFieldsStep<V>(c: Codec<V>, fs: seq<FieldSpec>, s: seq<byte>, x: Value<V>, n: nat)
    requires Reads(c) && fs != [] && DecodeField(c, fs[0], s) == Ok((x, n))
    ensures n <= |s|
    ensures DecodeFields(c, fs, s) == Prepend([x], n, DecodeFields(c, fs[1..], s[n..]))
  {
  }

  /** A first field that fails ends `DecodeFields` with its error. */
  lemma DecodeFieldsFail<V>(c: Codec<V>, fs: seq<FieldSpec>, s: seq<byte>)
    requires Reads(c) && fs != [] && DecodeField(c, fs[0], s).Err?
    ensures DecodeFields(c, fs, s) == Err(DecodeField(c, fs[0], s).error)
  {
  }

  /** The loop step of the field reads: after the values `xs` read with `k`
      bytes, reading the first remaining field as `x` from `data[p..]`, which
      leaves the cursor at `q`, leaves the same overall outcome still to come
      from the other fields. */
  lemma DecodeFieldsAdvance<V>(c: Codec<V>, fs: seq<FieldSpec>, data: seq<byte>, p: nat, q: nat,
                               x: Value<V>, xs: seq<Value<V>>, k: nat, all: Result<(seq<Value<V>>, nat), IoError>)
    requires Reads(c) && fs != [] && p <= q <= |data|
    requires DecodeField(c, fs[0], data[p..]) == Ok((x, q - p))
    requires all == Prepend(xs, k, DecodeFields(c, fs, data[p..]))
    ensures all == Prepend(xs + [x], k + (q - p), DecodeFields(c, fs[1..], data[q..]))
  {
    assert data[p..][q - p..] == data[q..];
    DecodeFieldsStep(c, fs, data[p..], x, q - p);
    PrependAssoc(xs, k, [x], q - p, DecodeFields(c, fs[1..], data[q..]));
  }

  /** The generated `decode(reader, check_type)` on the bytes `s`. */
  function DecodeMessage<V>(c: Codec<V>, impl: WireMessageImpl, s: seq<byte>, checkType: bool)
    : (r: Result<(seq<Value<V>>, nat), IoError>)
    requires Reads(c)
    ensures r.Ok? ==> r.value.1 <= |s|
  {
    if !checkType then DecodeFields(c, impl.fields, s)
    else if |s| < 2 then Err(UnexpectedEof)
    else if FromBeBytes(s[0], s[1]) != impl.msgType then Err(InvalidData)
    else Prepend([], 2, DecodeFields(c, impl.fields, s[2..]))
  }

  /** A decoded message has the shape of its message type, so it can be
      encoded again. */
  lemma DecodeMessageFits<V>(c: Codec<V>, impl: WireMessageImpl, s: seq<byte>, checkType: bool)
    requires Reads(c)
    ensures var r := DecodeMessage(c, impl, s, checkType);
      r.Ok? ==> Fits(impl.fields, r.value.0)
  {
    if !checkType {
      DecodeFieldsFits(c, impl.fields, s);
    } else if 2 <= |s| {
      DecodeFieldsFits(c, impl.fields, s[2..]);
      var d := DecodeFields(c, impl.fields, s[2..]);
      assert d.Ok? ==> [] + d.value.0 == d.value.0;
    }
  }

  /** Reads one field through the codec and advances the cursor by what it used. */
  method ReadField<V>(c: Codec<V>, f: FieldSpec, r: Reader) returns (x: Result<Value<V>, IoError>)
    requires r.Valid() && Reads(c)
    modifies r
    ensures r.Valid()
    ensures var d := DecodeField(c, f, r.data[old(r.pos)..]);
      && (d.Ok? ==> x == Ok(d.value.0) && r.pos == old(r.pos) + d.value.1)
      && (d.Err? ==> x == Err(d.error) && r.pos == old(r.pos))
  {
    var d := DecodeField(c, f, r.data[r.pos..]);
    match d
    case Ok((v, n)) =>
      r.pos := r.pos + n;
      x := Ok(v);
    case Err(e) =>
      x := Err(e);
  }

  lemma PrependAssoc<V>(xs: seq<Value<V>>, n: nat, ys: seq<Value<V>>, k: nat, r: Result<(seq<Value<V>>, nat), IoError>)
    ensures Prepend(xs, n, Prepend(ys, k, r)) == Prepend(xs + ys, n + k, r)
  {
    if r.Ok? {
      assert xs + (ys + r.value.0) == (xs + ys) + r.value.0;
    }
  }

  /** The field reads of the generated `decode`, in declaration order; the
      first failing field ends the decode with its error. On success the
      cursor has advanced by exactly the bytes the fields used. */
  method ReadFields<V>(c: Codec<V>, fs: seq<FieldSpec>, r: Reader)
    returns (res: Result<seq<Value<V>>, IoError>)
    requires r.Valid() && Reads(c)
    modifies r
    ensures r.Valid() && old(r.pos) <= r.pos
    ensures var d := DecodeFields(c, fs, r.data[old(r.pos)..]);
      && (d.Ok? ==> res == Ok(d.value.0) && r.pos == old(r.pos) + d.value.1)
      && (d.Err? ==> res == Err(d.error))
  {
    ghost var base := r.pos;
    ghost var all := DecodeFields(c, fs, r.data[base..]);
    var values: seq<Value<V>> := [];
    var rest := fs;
    PrependNil(all);
    while rest != []
      invariant r.Valid() && base <= r.pos
      invariant all == Prepend(values, r.pos - base, DecodeFields(c, rest, r.data[r.pos..]))
      decreases |rest|
    {
      var x := ReadNext(c, rest, r, values, base, all);
      if x.Err? {
        return Err(x.error);
      }
      values := values + [x.value];
      rest := rest[1..];
    }
    PrependDone(c, r.data[r.pos..], values, r.pos - base);
    res := Ok(values);
  }

  /** One turn of the field loop: reads the next field; a failure is the
      outcome of the whole decode, a success carries its account forward. */
  method ReadNext<V>(c: Codec<V>, rest: seq<FieldSpec>, r: Reader, values: seq<Value<V>>,
                     ghost base: nat, ghost all: Result<(seq<Value<V>>, nat), IoError>)
    returns (x: Result<Value<V>, IoError>)
    requires r.Valid() && Reads(c) && rest != [] && base <= r.pos
    requires all == Prepend(values, r.pos - base, DecodeFields(c, rest, r.data[r.pos..]))
    modifies r
    ensures r.Valid() && old(r.pos) <= r.pos
    ensures x.Err? ==> all == Err(x.error)
    ensures x.Ok? ==> all == Prepend(values + [x.value], r.pos - base, DecodeFields(c, rest[1..], r.data[r.pos..]))
  {
    ghost var p := r.pos;
    x := ReadField(c, rest[0], r);
    if x.Err? {
      PrependFail(c, rest, r.data[p..], values, p - base);
    } else {
      DecodeFieldsAdvance(c, rest, r.data, p, r.pos, x.value, values, p - base, all);
    }
  }

  lemma PrependNil<V>(r: Result<(seq<Value<V>>, nat), IoError>)
    ensures Prepend([], 0, r) == r
  {
    if r.Ok? {
      assert [] + r.value.0 == r.value.0;
    }
  }

  /** With no fields left, the outcome is the values read so far. */
  lemma PrependDone<V>(c: Codec<V>, s: seq<byte>, xs: seq<Value<V>>, k: nat)
    requires Reads(c)
    ensures Prepend(xs, k, DecodeFields(c, [], s)) == Ok((xs, k))
  {
    assert xs + [] == xs;
  }

  /** A failing next field makes the outcome that field's error. */
  lemma PrependFail<V>(c: Codec<V>, fs: seq<FieldSpec>, s: seq<byte>, xs: seq<Value<V>>, k: nat)
    requires Reads(c) && fs != [] && DecodeField(c, fs[0], s).Err?
    ensures Prepend(xs, k, DecodeFields(c, fs, s)) == Err(DecodeField(c, fs[0], s).error)
  {
    DecodeFieldsFail(c, fs, s);
  }

  /** The generated `decode`: with `check_type` it reads the two tag bytes and
      fails with `InvalidData` when they are not `MSG_TYPE`, before any field;
      then it reads the fields in declaration order. On success the cursor has
      advanced by exactly the bytes the message used. */
  method Decode<V>(c: Codec<V>, impl: WireMessageImpl, r: Reader, checkType: bool)
    returns (res: Result<seq<Value<V>>, IoError>)
    requires r.Valid() && Reads(c)
    modifies r
    ensures r.Valid() && old(r.pos) <= r.pos
    ensures var d := DecodeMessage(c, impl, r.data[old(r.pos)..], checkType);
      && (d.Ok? ==> res == Ok(d.value.0) && r.pos == old(r.pos) + d.value.1)
      && (d.Err? ==> res == Err(d.error))
    ensures checkType && |r.data[old(r.pos)..]| < 2 ==> res == Err(UnexpectedEof)
    ensures checkType && 2 <= |r.data[old(r.pos)..]| && FromBeBytes(r.data[old(r.pos)], r.data[old(r.pos) + 1]) != impl.msgType
            ==> res == Err(InvalidData) && r.pos == old(r.pos) + 2
  {
    ghost var s0 := r.data[r.pos..];
    if checkType {
      var msgType := new byte[2];
      var read := r.ReadExact(msgType);
      if read.Err? {
        return Err(read.error);
      }
      var tag := FromBeBytes(msgType[0], msgType[1]);
      if tag != impl.msgType {
        return Err(InvalidData);
      }
      assert s0[2..] == r.data[r.pos..];
      ghost var body := DecodeFields(c, impl.fields, s0[2..]);
      res := ReadFields(c, impl.fields, r);
      assert body.Ok? ==> [] + body.value.0 == body.value.0;
    } else {
      res := ReadFields(c, impl.fields, r);
    }
  }

  // ---------------------------------------------------------------------
  // Round trip
  // ---------------------------------------------------------------------

  /** `e` is empty or starts with a TLV record of some type above `t`: what
      a TLV decoder for type `t` reads as "absent". */
  ghost predicate StartsAbove<V(!new)>(c: Codec<V>, t: u64, e: seq<byte>)
  {
    e == [] || exists ty, v, t', more :: t < t' && e == c.encodeTlv(ty, v, t') + more
  }

  lemma FitsTail<V>(fs: seq<FieldSpec>, m: seq<Value<V>>)
    requires Fits(fs, m) && fs != []
    ensures FieldFits(fs[0], m[0]) && Fits(fs[1..], m[1..])
  {
    assert forall i :: 0 <= i < |fs[1..]| ==> fs[1..][i] == fs[i + 1] && m[1..][i] == m[i + 1];
  }

  /** When every TLV field has a type above `t`, the encoding of the fields is
      empty or starts with a TLV record of some type above `t`. */
  lemma {:induction false} NextRecordAbove<V(!new)>(c: Codec<V>, fs: seq<FieldSpec>, m: seq<Value<V>>, t: u64)
    requires Fits(fs, m)
    requires forall i :: 0 <= i < |fs| ==> fs[i].tlv.Some? && t < fs[i].tlv.value
    ensures StartsAbove(c, t, EncodeFields(c, fs, m))
  {
    if fs != [] {
      FitsTail(fs, m);
      match m[0]
      case Opt(Some(v)) =>
        var more := EncodeFields(c, fs[1..], m[1..]);
        assert EncodeFields(c, fs, m) == c.encodeTlv(fs[0].ty, v, fs[0].tlv.value) + more;
      case Opt(None) =>
        assert forall i :: 0 <= i < |fs[1..]| ==> fs[1..][i] == fs[i + 1];
        NextRecordAbove(c, fs[1..], m[1..], t);
    }
  }

  /** The TLV fields after the first field of a strict layout: a strict
      layout again, and all of a type above the first field's, when that is a
      TLV field. */
  lemma StrictLayoutTail(fs: seq<FieldSpec>)
    requires StrictLayout(fs) && fs != []
    ensures StrictLayout(fs[1..])
    ensures fs[0].tlv.Some? ==>
      forall i :: 0 <= i < |fs[1..]| ==> fs[1..][i].tlv.Some? && fs[0].tlv.value < fs[1..][i].tlv.value
  {
    var tl := fs[1..];
    forall a, b | 0 <= a < b < |tl| && tl[a].tlv.Some?
      ensures tl[b].tlv.Some? && tl[a].tlv.value < tl[b].tlv.value
    {
      assert tl[a] == fs[a + 1] && tl[b] == fs[b + 1];
    }
    forall i | 0 <= i < |tl| && fs[0].tlv.Some?
      ensures tl[i].tlv.Some? && fs[0].tlv.value < tl[i].tlv.value
    {
      assert tl[i] == fs[i + 1];
    }
  }

  /** One field reads back what it wrote, whatever follows; an absent TLV
      field needs what follows to be empty or a record of a greater type. */
  lemma FieldRoundTrip<V(!new)>(c: Codec<V>, f: FieldSpec, x: Value<V>, tail: seq<byte>)
    requires Reads(c) && RoundTrips(c) && FieldFits(f, x)
    requires x == Opt(None) ==> StartsAbove(c, f.tlv.value, tail)
    ensures DecodeField(c, f, EncodeField(c, f, x) + tail) == Ok((x, |EncodeField(c, f, x)|))
  {
    if x == Opt(None) {
      assert EncodeField(c, f, x) + tail == tail;
      if tail != [] {
        var ty, v, t', more :| f.tlv.value < t' && tail == c.encodeTlv(ty, v, t') + more;
        assert c.decodeTlv(f.ty, tail, f.tlv.value) == Ok((None, 0));
      }
    }
  }

  /** The first field read with `n` bytes of `s` and the others from the rest
      of `s`, using all of it, make a decode of the whole of `s`. */
  lemma DecodeFieldsCons<V>(c: Codec<V>, fs: seq<FieldSpec>, x: Value<V>, xs: seq<Value<V>>, s: seq<byte>, n: nat)
    requires Reads(c) && fs != [] && n <= |s|
    requires DecodeField(c, fs[0], s) == Ok((x, n))
    requires DecodeFields(c, fs[1..], s[n..]) == Ok((xs, |s| - n))
    ensures DecodeFields(c, fs, s) == Ok(([x] + xs, |s|))
  {
  }

  /** The first field of an encoding reads back as its value, and what
      follows it is the encoding of the other fields. */
  lemma HeadReadsBack<V(!new)>(c: Codec<V>, fs: seq<FieldSpec>, m: seq<Value<V>>)
    requires Reads(c) && RoundTrips(c)
    requires StrictLayout(fs) && Fits(fs, m) && fs != []
    requires FieldFits(fs[0], m[0]) && Fits(fs[1..], m[1..])
    ensures var e, head := EncodeFields(c, fs, m), EncodeField(c, fs[0], m[0]);
      && |head| <= |e|
      && DecodeField(c, fs[0], e) == Ok((m[0], |head|))
      && e[|head|..] == EncodeFields(c, fs[1..], m[1..])
  {
    var tail := EncodeFields(c, fs[1..], m[1..]);
    var head := EncodeField(c, fs[0], m[0]);
    assert EncodeFields(c, fs, m) == head + tail;
    if m[0] == Opt(None) {
      StrictLayoutTail(fs);
      NextRecordAbove(c, fs[1..], m[1..], fs[0].tlv.value);
    }
    FieldRoundTrip(c, fs[0], m[0], tail);
  }

  /** Decoding the encoded fields yields the fields and uses all the bytes,
      provided the codecs round-trip and TLV types strictly increase. */
  lemma {:induction false} FieldsRoundTrip<V(!new)>(c: Codec<V>, fs: seq<FieldSpec>, m: seq<Value<V>>)
    requires Reads(c) && RoundTrips(c)
    requires StrictLayout(fs) && Fits(fs, m)
    ensures DecodeFields(c, fs, EncodeFields(c, fs, m)) == Ok((m, |EncodeFields(c, fs, m)|))
  {
    if fs != [] {
      FitsTail(fs, m);
      StrictLayoutTail(fs);
      FieldsRoundTrip(c, fs[1..], m[1..]);
      HeadReadsBack(c, fs, m);
      var e := EncodeFields(c, fs, m);
      DecodeFieldsCons(c, fs, m[0], m[1..], e, |EncodeField(c, fs[0], m[0])|);
      assert [m[0]] + m[1..] == m;
    }
  }

  /** `decode(encode(m), true) == m`, using every byte, for message types whose
      TLV extension types strictly increase. */
  lemma RoundTrip<V(!new)>(c: Codec<V>, impl: WireMessageImpl, m: seq<Value<V>>)
    requires Reads(c) && RoundTrips(c)
    requires StrictLayout(impl.fields) && Fits(impl.fields, m)
    ensures DecodeMessage(c, impl, EncodeMessage(c, impl, m), true) == Ok((m, |EncodeMessage(c, impl, m)|))
  {
    var e := EncodeMessage(c, impl, m);
    FromToBeBytes(impl.msgType);
    assert e[2..] == EncodeFields(c, impl.fields, m);
    FieldsRoundTrip(c, impl.fields, m);
    assert [] + m == m;
  }

  /** The same for a body whose tag a caller has already consumed: the
      `check_type = false` path reads the fields and nothing else. */
  lemma BodyRoundTrip<V(!new)>(c: Codec<V>, impl: WireMessageImpl, m: seq<Value<V>>)
    requires Reads(c) && RoundTrips(c)
    requires StrictLayout(impl.fields) && Fits(impl.fields, m)
    ensures DecodeMessage(c, impl, EncodeFields(c, impl.fields, m), false)
            == Ok((m, |EncodeFields(c, impl.fields, m)|))
  {
    FieldsRoundTrip(c, impl.fields, m);
  }

  /** `Option<inner>` as a field type. */
  function OptionOf(inner: Type): Type
  {
    PathType([PathSegment("Option", AngleBracketed([TypeArg(inner)]))])
  }

  /** Two `Option` fields `a` and `b`, both `#[tlv_type = t]`. */
  function TwinTlvFields(inner: Type, t: u64): seq<Field>
  {
    var attrs := [Parsed(NameValue("tlv_type", IntLit(t)))];
    [Field(Some("a"), attrs, OptionOf(inner)), Field(Some("b"), attrs, OptionOf(inner))]
  }

  /** The derive accepts two TLV fields with the same extension type, and
      gives both that type. */
  lemma TwinTlvFieldsAccepted(inner: Type, t: u64)
    ensures Accepts(TwinTlvFields(inner, t))
    ensures var fields := TwinTlvFields(inner, t);
      && SpecOf(fields[0], 0) == FieldSpec(ByName("a"), OptionOf(inner), Some(t))
      && SpecOf(fields[1], 1) == FieldSpec(ByName("b"), OptionOf(inner), Some(t))
  {
    var fields := TwinTlvFields(inner, t);
    assert IsNameValue(fields[0].attrs[0], "tlv_type");
    assert TlvOf(fields[0]) == Some(t) && TlvOf(fields[1]) == Some(t);
    assert Kinds(fields) == [Some(t), Some(t)];
  }

  /** The fold step as BOLT #1 intends it: as `CheckField`, but an extension
      type equal to the previous one is refused as well. */
  function CheckFieldStrict(prev: Option<u64>, f: Field): (r: Result<Option<u64>, DeriveError>)
    ensures r.Ok? <==> CheckField(prev, f).Ok? && (prev.Some? ==> TlvOf(f).Some? && prev.value < TlvOf(f).value)
    ensures r.Ok? ==> r.value == TlvOf(f)
  {
    CheckFieldAccepts(prev, f);
    match TlvAttr(f.attrs)
    case Err(e) => Err(e)
    case Ok(next) =>
      if prev.Some? && next.Some? && prev.value == next.value then Err(TlvNotMonotonic)
      else CheckField(prev, f)
  }

  /** The extension type the fold carries into the `i`-th field. */
  function PrevTlv(fields: seq<Field>, i: nat): Option<u64>
    requires i <= |fields|
  {
    if i == 0 then None else TlvOf(fields[i - 1])
  }

  /** The `i`-th field passes the strict fold step. */
  predicate StrictStepOk(fields: seq<Field>, i: nat)
    requires i < |fields|
  {
    CheckFieldStrict(PrevTlv(fields, i), fields[i]).Ok?
  }

  /** Every field passes the strict fold step. */
  ghost predicate StrictAccepts(fields: seq<Field>)
  {
    forall i :: 0 <= i < |fields| ==> StrictStepOk(fields, i)
  }

  lemma {:induction false} StrictChain(fields: seq<Field>, i: nat, j: nat)
    requires StrictAccepts(fields) && i < j < |fields| && TlvOf(fields[i]).Some?
    ensures TlvOf(fields[j]).Some? && TlvOf(fields[i]).value < TlvOf(fields[j]).value
    decreases j - i
  {
    if j > i + 1 {
      StrictChain(fields, i, j - 1);
    }
    StrictStep(fields, j);
  }

  lemma StrictStep(fields: seq<Field>, j: nat)
    requires StrictAccepts(fields) && 0 < j < |fields| && TlvOf(fields[j - 1]).Some?
    ensures TlvOf(fields[j]).Some? && TlvOf(fields[j - 1]).value < TlvOf(fields[j]).value
  {
    assert StrictStepOk(fields, j);
  }

  /** The fields the strict step accepts have strictly increasing extension
      types after all plain fields. */
  lemma StrictAcceptedLayout(fields: seq<Field>, specs: seq<FieldSpec>)
    requires StrictAccepts(fields) && |specs| == |fields|
    requires forall i :: 0 <= i < |fields| ==> specs[i] == SpecOf(fields[i], i)
    ensures StrictLayout(specs)
  {
    forall i, j | 0 <= i < j < |specs| && specs[i].tlv.Some?
      ensures specs[j].tlv.Some? && specs[i].tlv.value < specs[j].tlv.value
    {
      StrictChain(fields, i, j);
    }
  }

  /** With the strict step, every message type the derive produces
      round-trips: `decode(encode(m), true) == m`. */
  lemma StrictSchemaRoundTrip<V(!new)>(c: Codec<V>, fields: seq<Field>, impl: WireMessageImpl, m: seq<Value<V>>)
    requires Reads(c) && RoundTrips(c)
    requires StrictAccepts(fields) && |impl.fields| == |fields|
    requires forall i :: 0 <= i < |fields| ==> impl.fields[i] == SpecOf(fields[i], i)
    requires Fits(impl.fields, m)
    ensures DecodeMessage(c, impl, EncodeMessage(c, impl, m), true) == Ok((m, |EncodeMessage(c, impl, m)|))
  {
    StrictAcceptedLayout(fields, impl.fields);
    RoundTrip(c, impl, m);
  }

  /** The strict step refuses the twin fields the derive as written accepts. */
  lemma TwinTlvFieldsRefused(inner: Type, t: u64)
    ensures !StrictAccepts(TwinTlvFields(inner, t))
  {
    var fields := TwinTlvFields(inner, t);
    assert IsNameValue(fields[0].attrs[0], "tlv_type");
    assert TlvOf(fields[0]) == Some(t) && TlvOf(fields[1]) == Some(t);
    assert !StrictStepOk(fields, 1);
  }

  /** For such a message type the round trip fails: `a` absent and `b`
      present is written as one record of type `t`, which `decode` gives to
      `a`, leaving `b` absent. */
  lemma {:induction false} EqualTlvTypesBreakRoundTrip<V(!new)>(c: Codec<V>, inner: Type, t: u64, v: V)
    requires Reads(c) && RoundTrips(c)
    ensures
      var impl := WireMessageImpl(0, [FieldSpec(ByName("a"), OptionOf(inner), Some(t)),
                                      FieldSpec(ByName("b"), OptionOf(inner), Some(t))]);
      var m: seq<Value<V>> := [Opt(None), Opt(Some(v))];
      var e := EncodeMessage(c, impl, m);
      DecodeMessage(c, impl, e, true) == Ok(([Opt(Some(v)), Opt(None)], |e|))
  {
    var ty := OptionOf(inner);
    var fa, fb := FieldSpec(ByName("a"), ty, Some(t)), FieldSpec(ByName("b"), ty, Some(t));
    var impl := WireMessageImpl(0, [fa, fb]);
    var m: seq<Value<V>> := [Opt(None), Opt(Some(v))];
    var rec := c.encodeTlv(ty, v, t);
    assert EncodeFields(c, [fb], [Opt(Some(v))]) == rec;
    assert [fa, fb][1..] == [fb] && m[1..] == [Opt(Some(v))];
    assert EncodeFields(c, impl.fields, m) == rec;
    var e := EncodeMessage(c, impl, m);
    FromToBeBytes(0);
    assert e[2..] == rec;
    assert DecodeFields(c, [fb], []) == Ok(([Opt(None)], 0)) by {
      assert DecodeField(c, fb, []) == Ok((Opt(None), 0));
      DecodeFieldsStep(c, [fb], [], Opt(None), 0);
      assert [fb][1..] == [];
      assert DecodeFields(c, [], []) == Ok(([], 0));
      var none: seq<Value<V>> := [Opt(None)];
      assert none + [] == none;
    }
    assert DecodeFields(c, impl.fields, rec) == Ok(([Opt(Some(v)), Opt(None)], |rec|)) by {
      assert rec + [] == rec;
      assert c.decodeTlv(ty, rec, t) == Ok((Some(v), |rec|));
      assert DecodeField(c, fa, rec) == Ok((Opt(Some(v)), |rec|));
      DecodeFieldsStep(c, impl.fields, rec, Opt(Some(v)), |rec|);
      assert impl.fields[1..] == [fb] && rec[|rec|..] == [];
      var both: seq<Value<V>> := [Opt(Some(v)), Opt(None)];
      assert [Opt(Some(v))] + [Opt(None)] == both;
    }
    var both: seq<Value<V>> := [Opt(Some(v)), Opt(None)];
    assert [] + both == both;
    assert |e| == 2 + |rec|;
    assert FromBeBytes(e[0], e[1]) == impl.msgType;
    assert DecodeMessage(c, impl, e, true) == Prepend([], 2, DecodeFields(c, impl.fields, e[2..]));
  }
}
