/**
 * The `AnyWireMessage` derive: an enum whose every variant wraps one wire
 * message type (`enum Msg { Ping(Ping), Pong(Pong) }`) and whose generated
 * `encode`, `decode` and `msg_type` dispatch on the variant.
 *
 * A family is the list of the wrapped message types in variant order, each
 * given by the `WireMessageImpl` its own derive produced; a value of the
 * family is a variant index and the field values of the message it wraps.
 */
module AnyWireMsg {
  import opened Common
  import opened Syntax
  import opened Io
  import opened WireMsg

  type Family = seq<WireMessageImpl>

  /** `Name::Variant(inner)`: the variant index and the wrapped message. */
  datatype AnyMsg<V> = AnyMsg(variant: nat, body: seq<Value<V>>)

  // ---------------------------------------------------------------------
  // The derive's check of the variants
  // ---------------------------------------------------------------------

  /** The type a variant wraps: the first field of a tuple variant. */
  function VariantValue(v: Variant): (r: Result<Type, DeriveError>)
    ensures r.Ok? <==> v.fields.Unnamed? && v.fields.unnamed != []
    ensures r.Ok? ==> r.value == v.fields.unnamed[0].ty
    ensures r.Err? ==> r.error == (if v.fields.Unnamed? then VariantWithoutValue else VariantNotTuple)
  {
    match v.fields
    case Unnamed(u) => if u == [] then Err(VariantWithoutValue) else Ok(u[0].ty)
    case _ => Err(VariantNotTuple)
  }

  /** The `map(..).unzip()` over the variants: the name and wrapped type of
      every variant, or the refusal of the first variant that is not a tuple
      variant with a value. */
  function VariantTypes(variants: seq<Variant>): (r: Result<seq<(string, Type)>, DeriveError>)
    ensures r.Ok? <==> forall i :: 0 <= i < |variants| ==> VariantValue(variants[i]).Ok?
    ensures r.Ok? ==> |r.value| == |variants|
    ensures r.Ok? ==> forall i :: 0 <= i < |variants| ==>
      r.value[i] == (variants[i].ident, VariantValue(variants[i]).value)
    ensures r.Err? ==> exists i ::
      && 0 <= i < |variants|
      && (forall j :: 0 <= j < i ==> VariantValue(variants[j]).Ok?)
      && VariantValue(variants[i]) == Err(r.error)
  {
    if variants == [] then Ok([])
    else match VariantValue(variants[0])
      case Err(e) => Err(e)
      case Ok(ty) =>
        match VariantTypes(variants[1..])
        case Err(e) =>
          assert forall j :: 1 <= j < |variants| ==> variants[1..][j - 1] == variants[j];
          Err(e)
        case Ok(rest) =>
          assert forall j :: 1 <= j < |variants| ==> variants[1..][j - 1] == variants[j];
          Ok([(variants[0].ident, ty)] + rest)
  }

  /** The variant wraps exactly one value, as the emitted patterns
      `Name::Variant(a)` and `Name::Variant(_)` and the constructor call
      `Name::Variant(decode(..)?)` require. */
  predicate WrapsOne(v: Variant)
  {
    v.fields.Unnamed? && |v.fields.unnamed| == 1
  }

  /** `impl_trait`: only enums, then the variant check; a variant with
      several fields passes the macro, and its emitted one-field patterns
      are then refused by the compiler. */
  function DeriveAnyWireMessage(input: DeriveInput): (r: Result<seq<(string, Type)>, DeriveError>)
    ensures !input.data.EnumData? ==> r == Err(OnlyEnums)
    ensures input.data.EnumData? ==>
      (r.Ok? <==> forall i :: 0 <= i < |input.data.variants| ==> WrapsOne(input.data.variants[i]))
    ensures r.Ok? ==> |r.value| == |input.data.variants|
    ensures r.Ok? ==> forall i :: 0 <= i < |input.data.variants| ==>
      r.value[i] == (input.data.variants[i].ident, input.data.variants[i].fields.unnamed[0].ty)
    ensures input.data.EnumData? && VariantTypes(input.data.variants).Err? ==> exists i ::
      && 0 <= i < |input.data.variants|
      && (forall j :: 0 <= j < i ==> VariantValue(input.data.variants[j]).Ok?)
      && VariantValue(input.data.variants[i]) == Err(r.error)
    ensures input.data.EnumData? && VariantTypes(input.data.variants).Ok? && r.Err? ==>
      r.error == VariantWithManyValues
  {
    match input.data
    case EnumData(vs) =>
      (match VariantTypes(vs)
       case Err(e) => Err(e)
       case Ok(ts) =>
         if forall i :: 0 <= i < |vs| ==> WrapsOne(vs[i]) then Ok(ts) else Err(VariantWithManyValues))
    case _ => Err(OnlyEnums)
  }

  /** `enum Msg { Pair(Ping, Pong) }`: the macro takes `Ping` as the wrapped
      type, and the emitted impl is refused. */
  lemma PairVariantRefused(a: Type, b: Type)
    ensures var v := Variant("Pair", Unnamed([Field(None, [], a), Field(None, [], b)]), None);
      && VariantValue(v) == Ok(a)
      && DeriveAnyWireMessage(DeriveInput("Msg", [], EnumData([v]))) == Err(VariantWithManyValues)
  {
    var v := Variant("Pair", Unnamed([Field(None, [], a), Field(None, [], b)]), None);
    assert !WrapsOne([v][0]);
  }

  // ---------------------------------------------------------------------
  // msg_type and encode
  // ---------------------------------------------------------------------

  /** The value is a variant of the family carrying a message of its type. */
  ghost predicate Member<V>(fam: Family, x: AnyMsg<V>)
  {
    x.variant < |fam| && Fits(fam[x.variant].fields, x.body)
  }

  /** The `MSG_TYPE` of every variant, in variant order. */
  function Tags(fam: Family): (ts: seq<int>)
    ensures |ts| == |fam| && forall i :: 0 <= i < |fam| ==> ts[i] == fam[i].msgType
  {
    seq(|fam|, i requires 0 <= i < |fam| => fam[i].msgType as int)
  }

  /** The generated `msg_type`: the `MSG_TYPE` of the wrapped message. */
  function MsgType<V>(fam: Family, x: AnyMsg<V>): (t: u16)
    requires x.variant < |fam|
    ensures t == Tags(fam)[x.variant]
  {
    fam[x.variant].msgType
  }

  /** The generated `encode`: the wrapped message's encoding, nothing added. */
  function EncodeAny<V>(c: Codec<V>, fam: Family, x: AnyMsg<V>): (e: seq<byte>)
    requires Member(fam, x)
    ensures |e| >= 2 && e[..2] == ToBeBytes(fam[x.variant].msgType)
    ensures e[2..] == EncodeFields(c, fam[x.variant].fields, x.body)
  {
    EncodeMessage(c, fam[x.variant], x.body)
  }

  /** `msg_type()` is what the first two bytes of `encode` say. */
  lemma MsgTypeIsPrefix<V>(c: Codec<V>, fam: Family, x: AnyMsg<V>)
    requires Member(fam, x)
    ensures var e := EncodeAny(c, fam, x);
      |e| >= 2 && FromBeBytes(e[0], e[1]) == MsgType(fam, x)
  {
    EncodeStartsWithTag(c, fam[x.variant], x.body);
  }

  /** The generated `encode`: forwards to the wrapped message's `encode`, so
      the sink sees exactly the events that encode produces. */
  method Encode<V>(c: Codec<V>, fam: Family, x: AnyMsg<V>, w: Sink) returns (count: nat)
    requires Member(fam, x)
    modifies w
    ensures w.events == old(w.events) + EncodeEvents(c, fam[x.variant], x.body)
    ensures count == |EncodeAny(c, fam, x)|
  {
    count := WireMsg.Encode(c, fam[x.variant], x.body, w);
  }

  // ---------------------------------------------------------------------
  // decode
  // ---------------------------------------------------------------------

  /** The generated `decode` on the bytes `s`: two tag bytes, the first
      variant whose `MSG_TYPE` is the tag, and that message's decode without
      the tag check. */
  function DecodeAny<V>(c: Codec<V>, fam: Family, s: seq<byte>): (r: Result<(AnyMsg<V>, nat), IoError>)
    requires Reads(c)
    ensures |s| < 2 ==> r == Err(UnexpectedEof)
    ensures 2 <= |s| && (forall j :: 0 <= j < |fam| ==> fam[j].msgType != FromBeBytes(s[0], s[1]))
            ==> r == Err(InvalidData)
    ensures r.Ok? ==> 2 <= r.value.1 <= |s| && r.value.0.variant < |fam|
    ensures r.Ok? ==> var k := r.value.0.variant;
      && fam[k].msgType == FromBeBytes(s[0], s[1])
      && (forall j :: 0 <= j < k ==> fam[j].msgType != fam[k].msgType)
      && DecodeMessage(c, fam[k], s[2..], false) == Ok((r.value.0.body, r.value.1 - 2))
    ensures 2 <= |s| && FirstIndex(Tags(fam), FromBeBytes(s[0], s[1])).Some? ==>
      var k := FirstIndex(Tags(fam), FromBeBytes(s[0], s[1])).value;
      var d := DecodeMessage(c, fam[k], s[2..], false);
      && (d.Ok? ==> r == Ok((AnyMsg(k, d.value.0), d.value.1 + 2)))
      && (d.Err? ==> r == Err(d.error))
  {
    if |s| < 2 then Err(UnexpectedEof)
    else match FirstIndex(Tags(fam), FromBeBytes(s[0], s[1]))
      case None => Err(InvalidData)
      case Some(k) =>
        match DecodeMessage(c, fam[k], s[2..], false)
        case Err(e) => Err(e)
        case Ok((body, n)) => Ok((AnyMsg(k, body), n + 2))
  }

  /** A variant whose `MSG_TYPE` an earlier variant already has is never
      decoded: the earlier arm of the `match` takes every such tag. */
  lemma ShadowedVariant<V>(c: Codec<V>, fam: Family, i: nat, j: nat, s: seq<byte>)
    requires Reads(c) && i < j < |fam| && fam[i].msgType == fam[j].msgType
    ensures DecodeAny(c, fam, s).Ok? ==> DecodeAny(c, fam, s).value.0.variant != j
  {
  }

  /** With distinct `MSG_TYPE`s, decoding an encoded member gives it back and
      uses every byte, provided its message type round-trips. */
  lemma RoundTrip<V(!new)>(c: Codec<V>, fam: Family, x: AnyMsg<V>)
    requires Reads(c) && RoundTrips(c)
    requires Distinct(Tags(fam)) && Member(fam, x)
    requires StrictLayout(fam[x.variant].fields)
    ensures DecodeAny(c, fam, EncodeAny(c, fam, x)) == Ok((x, |EncodeAny(c, fam, x)|))
  {
    var impl := fam[x.variant];
    var e := EncodeAny(c, fam, x);
    EncodeStartsWithTag(c, impl, x.body);
    FirstIndexOfDistinct(Tags(fam), x.variant);
    assert e[2..] == EncodeFields(c, impl.fields, x.body);
    BodyRoundTrip(c, impl, x.body);
  }

  /** The generated `decode`: reads the two tag bytes into a buffer, picks the
      first variant with that `MSG_TYPE` and lets its `decode` read the body
      without a tag check; an unknown tag is `InvalidData` after exactly the
      two tag bytes. */
  method Decode<V>(c: Codec<V>, fam: Family, r: Reader) returns (res: Result<AnyMsg<V>, IoError>)
    requires r.Valid() && Reads(c)
    modifies r
    ensures r.Valid() && old(r.pos) <= r.pos
    ensures var d := DecodeAny(c, fam, r.data[old(r.pos)..]);
      && (d.Ok? ==> res == Ok(d.value.0) && r.pos == old(r.pos) + d.value.1)
      && (d.Err? ==> res == Err(d.error))
    ensures |r.data| < old(r.pos) + 2 ==> res == Err(UnexpectedEof)
    ensures old(r.pos) + 2 <= |r.data| &&
            (forall j :: 0 <= j < |fam| ==> fam[j].msgType != FromBeBytes(r.data[old(r.pos)], r.data[old(r.pos) + 1]))
            ==> r.pos == old(r.pos) + 2
  {
    ghost var s0 := r.data[r.pos..];
    var msgType := new byte[2];
    var read := r.ReadExact(msgType);
    if read.Err? {
      return Err(read.error);
    }
    var tag := FromBeBytes(msgType[0], msgType[1]);
    assert tag == FromBeBytes(s0[0], s0[1]);
    assert s0[2..] == r.data[r.pos..];
    var k := FirstIndex(Tags(fam), tag);
    if k.None? {
      return Err(InvalidData);
    }
    var inner := WireMsg.Decode(c, fam[k.value], r, false);
    match inner {
      case Err(e) => res := Err(e);
      case Ok(body) => res := Ok(AnyMsg(k.value, body));
    }
  }
}
