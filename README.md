# lightning-wire-msgs-derive, modelled in Dafny

This crate provides derive macros for Lightning Network messages. A message
is a big-endian `u16` type tag (`MSG_TYPE`) followed by its fields in
declaration order (BOLT #1, "Lightning Message Format"). Optional extension
fields come after the fixed ones, as records of a TLV (type-length-value)
stream (BOLT #1, "Type-Length-Value Format").

The model covers four pieces:

- **`WireMessage` on a struct** (`wire_msg.dfy`, module `WireMsg`).
  - The checks the derive makes on the struct:
    - a `#[msg_type = N]` attribute must be present, and the first one wins;
    - each field's `#[tlv_type = N]` must be a `u64`;
    - a TLV field must be an `Option<T>`;
    - no plain field may follow a TLV field;
    - TLV types must never decrease.
  - The schema check is a fold over the fields that carries the previous TLV
    type. It is modelled as a method with a loop, `ValidateFields`.
  - The generated `encode` is a method over a recording sink (`Io.Sink`).
    Its specification functions are `EncodeMessage` (bytes) and
    `EncodeEvents` (writes and the final flush).
  - The generated `decode` is a method over a byte cursor (`Io.Reader`). Its
    specification function is `DecodeMessage`.
  - The field codecs (`WireItemWriter`/`WireItemReader`, and
    `TLVWireItemWriter`/`TLVWireItemReader`) are not part of the generated
    code. They are the four functions of an abstract `Codec`. Two predicates
    hold what is taken as given about them: `Reads` (a decoder uses at most the
    bytes it was given) and `RoundTrips`. Each lemma requires only the ones
    it needs.
- **`AnyWireMessage` on an enum** (`any_wire_msg.dfy`, module `AnyWireMsg`).
  - The variant-shape check.
  - The generated `msg_type` and `encode`, which forward to the wrapped
    message.
  - The generated `decode`: read two tag bytes, take the first variant whose
    `MSG_TYPE` matches, and decode its body without a second tag check.
- **`TryFrom` in the `base` crate** (`try_from_base.dfy`, module
  `TryFromBase`).
  - The `repr` lookup.
  - The generated `try_from`, which returns `Err(prim)` for an unknown value.
  - The discriminants of the variants are an input, one per variant.
- **`TryFrom` in the top-level crate** (`try_from_src.dfy`, module
  `TryFromSrc`).
  - Every variant must carry an explicit discriminant.
  - The generated `try_from` returns `Err(())` for an unknown value.

Shared definitions:

- `common.dfy`: bytes, `Option`/`Result`, I/O error kinds, the big-endian
  `u16` conversion, and `FirstIndex`. `FirstIndex` is the first-match
  semantics of a Rust `match` over constant patterns, which both the family
  dispatch and the `try_from` arms rely on.
- `syntax.dfy`: the parts of the macro input the derives inspect. One
  `DeriveError` constructor stands for each way a derive refuses its input
  (a `panic!`, `expect` or `unimplemented!`).

Where the code departs from BOLT #1 or leaves a case open, the model
follows the code:

- **TLV order at derive time.** BOLT #1, section "Type-Length-Value Format",
  requires the types of a TLV stream to be strictly increasing. The derive
  refuses only `old > new`, so equal types pass
  (`WireMsg.TwinTlvFieldsAccepted`).
- **TLV order at decode time.** The same section asks a reader to reject a
  stream whose types are not strictly increasing. The generated `decode`
  reads each field once, in declaration order, and checks no order.
- **Duplicate tags in a family.** The `AnyWireMessage` derive does not check
  that the variants' `MSG_TYPE`s differ. The earlier variant takes every such
  tag (`AnyWireMsg.ShadowedVariant`), and the family round trip is proved
  under `Distinct(Tags(fam))`.
- **Error kinds.** The generated code produces only `std::io` errors:
  `UnexpectedEof` from `read_exact`, `InvalidData` for a tag mismatch, and
  whatever the field codecs return.
- **No `repr` type.** When the `TryFrom` lookup yields no type, the derive
  emits `impl TryFrom<> for ..`, which the compiler refuses. The model
  reports this as the error `NoReprType`. In `src/try_from.rs` a missing
  discriminant is refused first, while the macro runs.
- **Variants with several fields.** The `AnyWireMessage` derive takes the
  first field of a tuple variant and does not check that it is the only
  one. The emitted patterns bind one field, so the compiler refuses such a
  variant. The model reports this as the error `VariantWithManyValues`.

## Model

| member | source | states |
|---|---|---|
| Common.ToBeBytes | base/src/wire_msg.rs:94 | `u16::to_be_bytes` is two bytes, high byte first, whose big-endian value is the input |
| Common.FromToBeBytes | base/src/wire_msg.rs:59-62 | reading back the two tag bytes `encode` wrote yields `MSG_TYPE` |
| Common.ToFromBeBytes | base/src/any_wire_msg.rs:53-55 | every pair of tag bytes is the encoding of the `u16` read from them, so the conversion is a bijection |
| Common.FirstIndex | base/src/any_wire_msg.rs:56-60 | the arm a `match` over constant patterns selects: an index with an equal constant and none equal before it; none exactly when no constant is equal |
| Common.FirstIndexOfDistinct | base/src/try_from.rs:42-47 | when the constants are distinct, the arm selected for constant `i` is arm `i` |
| Io.Sink.Write | base/src/wire_msg.rs:94 | `w.write` records one write of the whole buffer and reports its length |
| Io.Sink.Flush | base/src/wire_msg.rs:98 | `w.flush` records one flush |
| Io.Reader.ReadExact | base/src/wire_msg.rs:59-60 | `read_exact` fills the buffer from the next bytes and advances by its length, or fails with `UnexpectedEof` when fewer bytes remain, with the cursor still inside the data and not moved back |
| WireMsg.MsgTypeAttr | base/src/wire_msg.rs:111-127 | the literal of the first `#[msg_type = ..]` attribute; `MissingMsgType` exactly when there is none |
| WireMsg.MsgTypeValue | base/src/wire_msg.rs:234 | `const MSG_TYPE: u16 = #num` is accepted exactly for an integer literal below 2^16, with that value |
| WireMsg.TlvAttr | base/src/wire_msg.rs:141-163 | no TLV type exactly when no `#[tlv_type = ..]` is present; the first one decides: it is accepted exactly when its literal is an integer that fits a `u64`, with that value, else `TlvTypeNotU64` |
| WireMsg.TlvAttrFirstDecides | base/src/wire_msg.rs:141-163 | after attributes of other kinds, the first `#[tlv_type = ..]` alone decides the TLV type, whatever attributes follow it |
| WireMsg.OptionInner | base/src/wire_msg.rs:170-185 | a TLV field's type is accepted exactly when its last path segment is `Option<T, ..>` with a type `T`; an empty path is `MissingType`, anything else `TlvValueNotOption` |
| WireMsg.CheckField | base/src/wire_msg.rs:165-188 | one fold step: a refused `tlv_type` passes its error through; a plain field after a TLV field is `TlvAfterExpectedFields`; a TLV type below the previous one is `TlvNotMonotonic`; a TLV field that is not an `Option` gets the `OptionInner` error; the step succeeds exactly when none of these applies, with the field's TLV type as the new state |
| WireMsg.MemberOf | base/src/wire_msg.rs:132-140 | a named field is accessed by its name, an unnamed one by its position |
| WireMsg.CheckFieldAccepts | base/src/wire_msg.rs:165-188 | one fold step accepts a field exactly when its `tlv_type` is valid, it is not a plain field after a TLV field, its type is not below the previous one, and a TLV field is an `Option`; the new state is the field's own TLV type |
| WireMsg.AcceptsSnoc | base/src/wire_msg.rs:165-188 | a step that succeeds after an accepted prefix extends it to an accepted prefix |
| WireMsg.AcceptedFieldPasses | base/src/wire_msg.rs:165-187 | in an accepted field list every fold step succeeds |
| WireMsg.AcceptedLayout | base/src/wire_msg.rs:165-169 | the field table of an accepted struct has all plain fields first and non-decreasing TLV types |
| WireMsg.ValidateFields | base/src/wire_msg.rs:128-199 | the fold with the mutable `tlv` accepts exactly the lists `Accepts` describes, yields one entry per field with its accessor, type and TLV type, and otherwise returns the error of the first failing step after an accepted prefix |
| WireMsg.DeriveWireMessage | base/src/wire_msg.rs:104-199 | only structs (`NotAStruct`), `msg_type` first (`MissingMsgType`), then the field fold, whose failure is the error of the first failing field after an accepted prefix, then the `u16` literal check (`MsgTypeNotU16`); success exactly when all pass, with `MSG_TYPE` and a field table that keep the layout |
| WireMsg.FieldEventsWrite | base/src/wire_msg.rs:78-90 | the field writes put exactly the encoded fields on the wire, in order, and none of them is a flush |
| WireMsg.EncodeEventsWriteMessage | base/src/wire_msg.rs:92-100 | the generated `encode` puts the tag and then the fields on the wire; its last event is the only flush |
| WireMsg.EncodeStartsWithTag | base/src/wire_msg.rs:94 | the encoding starts with the two big-endian bytes of `MSG_TYPE` |
| WireMsg.Encode | base/src/wire_msg.rs:77-102 | the sink receives the tag, one write per plain field and per present TLV field (none for an absent one), then a flush; the count is the length of the encoded message |
| WireMsg.DecodeField | base/src/wire_msg.rs:44-54 | a plain field is read with `decode`, a TLV field with `decode_tlv` and its declared type; the value has the field's shape and uses at most the bytes available |
| WireMsg.DecodeFields | base/src/wire_msg.rs:66-72 | decoding the fields in declaration order uses at most the bytes available |
| WireMsg.DecodeFieldsFits | base/src/wire_msg.rs:66-72 | a successful decode yields one value per field, of the shape the field declares |
| WireMsg.DecodeFieldsFail | base/src/wire_msg.rs:47-51 | the `?` after a field read: a failing field ends the decode with its error |
| WireMsg.DecodeMessage | base/src/wire_msg.rs:56-74 | the whole decode uses at most the bytes available |
| WireMsg.DecodeMessageFits | base/src/wire_msg.rs:56-74 | a decoded message has the shape of its message type |
| WireMsg.ReadField | base/src/wire_msg.rs:44-54 | one field read advances the cursor by the bytes its decoder used; a failing decoder returns its error and, in this model, consumes nothing |
| WireMsg.ReadFields | base/src/wire_msg.rs:66-72 | the field reads return what `DecodeFields` gives on the unread bytes, and on success advance the cursor by exactly the bytes used |
| WireMsg.ReadNext | base/src/wire_msg.rs:66-72 | one turn of the field loop: a failing field read is the outcome of the whole decode, a successful one leaves what remains to be read accounting for the rest |
| WireMsg.Decode | base/src/wire_msg.rs:56-74 | with `check_type`, reads two bytes and fails with `InvalidData` after exactly those two when they are not `MSG_TYPE`; returns what `DecodeMessage` gives (so `UnexpectedEof` when fewer than two bytes remain) and on success advances by exactly the bytes used |
| WireMsg.FieldRoundTrip | base/src/wire_msg.rs:44-54 | each field reads back what `encode` wrote for it, given a codec that round-trips and, for an absent TLV field, a rest that starts with a higher TLV type |
| WireMsg.FieldsRoundTrip | base/src/wire_msg.rs:66-90 | decoding the encoded fields gives them back and uses every byte, when TLV types strictly increase |
| WireMsg.RoundTrip | base/src/wire_msg.rs:56-100 | `decode(encode(m), true) == m`, using every byte, for message types whose TLV types strictly increase |
| WireMsg.BodyRoundTrip | base/src/wire_msg.rs:58-72 | the same for `check_type = false` on the encoding without its tag |
| WireMsg.TwinTlvFieldsAccepted | base/src/wire_msg.rs:167 | the derive accepts two `Option` fields with the same `tlv_type` |
| WireMsg.EqualTlvTypesBreakRoundTrip | base/src/wire_msg.rs:79-84 | for such a type, `(None, Some(v))` is encoded as one record that `decode` gives to the first field, yielding `(Some(v), None)` |
| WireMsg.CheckFieldStrict | base/src/wire_msg.rs:165-169 | the intended fold step accepts exactly what the written step accepts minus a TLV type equal to the previous one |
| WireMsg.StrictAcceptedLayout | base/src/wire_msg.rs:165-188 | fields the strict step accepts give a table with plain fields first and strictly increasing TLV types |
| WireMsg.StrictSchemaRoundTrip | base/src/wire_msg.rs:56-100 | every message type built from fields the strict step accepts round-trips through `encode` and `decode` |
| WireMsg.TwinTlvFieldsRefused | base/src/wire_msg.rs:167 | the strict step refuses the twin TLV fields |
| AnyWireMsg.VariantValue | base/src/any_wire_msg.rs:78-86 | a variant is accepted exactly when it is a tuple variant with a first field, whose type it wraps; otherwise `VariantWithoutValue` (empty tuple) or `VariantNotTuple` |
| AnyWireMsg.VariantTypes | base/src/any_wire_msg.rs:72-89 | the macro's variant check passes exactly when every variant is accepted; it then gives each variant's name and wrapped type in order, otherwise the error of the first refused variant |
| AnyWireMsg.DeriveAnyWireMessage | base/src/any_wire_msg.rs:10-89 | only enums (`OnlyEnums`); a variant the macro refuses gives the error of the first such variant; a variant with several fields passes the macro but its emitted one-field patterns do not compile (`VariantWithManyValues`); success exactly when every variant is a tuple variant with exactly one field, giving each variant's name and wrapped type in order |
| AnyWireMsg.PairVariantRefused | base/src/any_wire_msg.rs:34-44 | `Pair(Ping, Pong)` passes the macro's variant check with `Ping` as its type, and the family is refused as `VariantWithManyValues` |
| AnyWireMsg.MsgType | base/src/any_wire_msg.rs:124-130 | `msg_type` is the `MSG_TYPE` of the wrapped message's variant, as listed by `Tags` |
| AnyWireMsg.EncodeAny | base/src/any_wire_msg.rs:34-44 | the encoding of a variant is the two tag bytes of its message type followed by that message's fields, with no header of the enum's own |
| AnyWireMsg.MsgTypeIsPrefix | base/src/any_wire_msg.rs:124-130 | `msg_type(x)` equals the big-endian value of the first two bytes of `encode(x)` |
| AnyWireMsg.Encode | base/src/any_wire_msg.rs:34-44 | `encode` forwards to the wrapped message: the sink sees exactly that message's events and nothing more |
| AnyWireMsg.DecodeAny | base/src/any_wire_msg.rs:52-62 | `UnexpectedEof` with fewer than two bytes; `InvalidData` when no variant has the tag; otherwise, in both directions, the outcome of the first variant with that tag: its body and the bytes used plus two when its decode without a tag check succeeds, its error when that fails |
| AnyWireMsg.ShadowedVariant | base/src/any_wire_msg.rs:56-59 | a variant whose `MSG_TYPE` an earlier variant also has is never decoded |
| AnyWireMsg.RoundTrip | base/src/any_wire_msg.rs:34-62 | with distinct tags, `decode(encode(x)) == x`, using every byte, for a variant whose message type round-trips |
| AnyWireMsg.Decode | base/src/any_wire_msg.rs:52-63 | the method returns what `DecodeAny` gives on the unread bytes and advances by the bytes used; fewer than two bytes is `UnexpectedEof`; an unknown tag leaves the cursor exactly after the two tag bytes |
| TryFromBase.FirstParsed | base/src/try_from.rs:14-22 | the first attribute that `parse_meta` accepts, or none when no attribute parses |
| TryFromBase.FirstRepr | base/src/try_from.rs:14-19 | the position of the first `#[repr(..)]` attribute, with none before it; none exactly when there is no such attribute |
| TryFromBase.ReprAsWritten | base/src/try_from.rs:11-23 | the written lookup is `MissingRepr` exactly when no attribute parses, and yields no `repr` exactly when the first parseable attribute is not `#[repr(..)]` |
| TryFromBase.DocBeforeReprLost | base/src/try_from.rs:11-23 | with a doc comment before `#[repr(u8)]`, the written lookup yields no `repr` while the intended one finds `u8` |
| TryFromBase.FindRepr | base/src/try_from.rs:11-23 | `MissingRepr` exactly when there is no `#[repr(..)]`; success exactly when the first one has an entry, which it yields |
| TryFromBase.ReprFirstAgrees | base/src/try_from.rs:11-23 | when `#[repr(..)]` is the first parseable attribute, the written and the intended lookups agree |
| TryFromBase.DeriveTryFrom | base/src/try_from.rs:4-34 | only enums (`OnlyEnums`), then the written `repr` lookup: its error passes through, no type is `NoReprType`, and success exactly when it yields a type; on success that `repr` and every variant name in order |
| TryFromBase.DeriveTryFromFixed | base/src/try_from.rs:4-34 | the derive with the intended lookup: only enums, then success exactly when `FindRepr` succeeds, with its `repr` and every variant name in order, else its error |
| TryFromBase.DeriveFixedExtends | base/src/try_from.rs:11-23 | whatever the written derive accepts, the intended one accepts with the same impl; when `#[repr(..)]` is the first parseable attribute they give the same outcome |
| TryFromBase.DocBeforeReprRefused | base/src/try_from.rs:11-23 | an enum with a doc comment before `#[repr(u8)]` is refused by the written derive with `NoReprType` and accepted by the intended one with `u8` |
| TryFromBase.VariantNames | base/src/try_from.rs:24-28 | the variant names, one per variant in declaration order |
| TryFromBase.TryFrom | base/src/try_from.rs:40-50 | `Ok(v)` only for a variant whose discriminant is `prim`, the first such; `Err` exactly when no variant has it, and the error is `prim` itself |
| TryFromBase.TryFromDiscriminant | base/src/try_from.rs:42-46 | `try_from(v as repr) == Ok(v)` for every variant, with distinct discriminants |
| TryFromSrc.Discriminants | src/try_from.rs:24-29 | every variant's explicit discriminant in order, or `MissingDiscriminant` exactly when some variant has none |
| TryFromSrc.DeriveTryFrom | src/try_from.rs:4-30 | only enums, then the written `repr` lookup, whose error passes through; then a variant without a discriminant is `MissingDiscriminant`, also when the lookup found no type, since that is refused only later by the compiler (`NoReprType`); success exactly when a type is found and every variant has a discriminant, with that `repr` and one arm per variant with its name and discriminant |
| TryFromSrc.MissingDiscriminantFirst | src/try_from.rs:24-29 | with a doc comment before `#[repr(u8)]` and a variant without a discriminant, the refusal is `MissingDiscriminant`, raised while the macro runs |
| TryFromSrc.TryFrom | src/try_from.rs:36-42 | `Ok(v)` only when `prim` is the discriminant of `v`, the first such arm; `Err(())` exactly when no arm matches |
| TryFromSrc.TryFromDiscriminant | src/try_from.rs:37-40 | the literal of every variant converts back to that variant |
| TryFromSrc.AgreesWithBase | src/try_from.rs:24-41 | with explicit discriminants the two derives accept the same enums, agree on the `repr`, and their `try_from`s pick the same variant |

## Left out

- `src/lib.rs` and `proc/src/lib.rs`: these entry points only parse the token stream and forward to the functions modelled here.
- The `Subset` split (`Both`, `Reader`, `Writer`) only chooses which trait name is emitted, so each operation is modelled once.
- Generic parameters and where-clauses, and their bound stripping, are plumbing for the emitted impl header and have no run-time meaning.
- The token output itself is not modelled: the model states what the generated code does, not the tokens `quote!` produces.
- The field codecs and `PeekReader` are not part of the generated code. They are abstract functions given the unread bytes, so no lookahead, buffering or rollback is modelled.
- Transport failures are left out: an `io::Error` from the sink, a partial `write` and a failing `flush`. The sink accepts every byte. On the reading side, only `UnexpectedEof` from `read_exact` and the codecs' own errors occur.
- Bytes are the integer subset type `byte` (0 to 255), not `bv8`: the model does no bit arithmetic on them.
- The discriminants of the `base` `try_from` are an input, because the compiler assigns implicit ones, and `as repr` is taken as the identity. For `src/try_from.rs`, an explicit discriminant is kept as the integer value of its expression.
- `MsgTypeValue` models the compiler's check that the `msg_type` literal fits a `u16`, which happens when the emitted constant is compiled. It is therefore ordered after the field checks.
- Io.Reader.ReadExact: after a failed read the cursor is promised only to stay within the data and not move back, and the buffer's contents are not promised, because `std::io::Read::read_exact` leaves both unspecified. WireMsg.Decode and AnyWireMsg.Decode therefore promise `UnexpectedEof` for a short tag read, but not where the cursor is afterwards.
- WireMsg.ReadField: a failing abstract codec consumes nothing here, so the cursor stays where it was; a real reader may have consumed bytes before its error, which this model does not capture.
- WireMsg.ReadFields: after a failing field the cursor position is stated only as at or after the start, so that this promise does not rely on the failing codec consuming nothing.
- WireMsg.Decode: the same holds for the cursor after a failing field when the tag matched.
- AnyWireMsg.Decode: the same holds for the cursor after a failing field of the chosen variant.
- All fields of a message share one value type `V`: the per-type Rust types of the fields are not represented.

## Findings

| source | as written | input that shows it | evidently intended | confidence | as-written member | corrected member |
|---|---|---|---|---|---|---|
| base/src/wire_msg.rs:167 | the field fold refuses only `old > new`, so two TLV fields may share an extension type | two `Option` fields both `#[tlv_type = 5]` holding `(None, Some(v))`: one record of type 5 is written and `decode` gives it to the first field, yielding `(Some(v), None)` | refuse an equal TLV type as well (strictly increasing types, as BOLT #1 requires), so that every accepted message type round-trips | not executed | WireMsg.EqualTlvTypesBreakRoundTrip | WireMsg.StrictSchemaRoundTrip |
| base/src/try_from.rs:14-22 | the `filter_map` closure yields `Some(None)` for every parseable attribute that is not `repr`, so `next()` stops at the first parseable attribute of any kind (the same code is at src/try_from.rs:14-22) | `/// Kinds` then `#[repr(u8)]` on the enum: the lookup yields no `repr`, the impl is emitted as `TryFrom<>` and the compiler refuses it | the first entry of the first `#[repr(..)]` attribute, whatever comes before it | not executed | TryFromBase.DocBeforeReprRefused | TryFromBase.DeriveTryFromFixed |
