/**
 * The part of a derive macro's input that the three derives inspect: the
 * item's attributes, and either the fields of a struct or the variants of an
 * enum with their fields and explicit discriminants. This stands for the
 * `syn::DeriveInput` the macros receive; token streams, spans and generics
 * are not represented.
 */
module Syntax {
  import opened Common

  /** A literal as it appears in an attribute (`#[msg_type = 18]`). An integer
      literal is kept as the value of its digits. */
  datatype Lit = IntLit(digits: nat) | StrLit(text: string) | OtherLit

  /** One entry of a list attribute (`u8` in `#[repr(u8)]`). */
  datatype NestedMeta = NestedPath(path: string) | NestedLit(lit: Lit)

  /** What `parse_meta` makes of an attribute. A path is kept as its text, so a
      path "is" an identifier exactly when it is that one identifier. */
  datatype Meta =
    | PathMeta(path: string)
    | ListMeta(path: string, nested: seq<NestedMeta>)
    | NameValue(path: string, lit: Lit)

  /** An attribute: `Unparsable` when `parse_meta` returns an error. */
  datatype Attribute = Unparsable | Parsed(meta: Meta)

  /** Field types: a path type `a::b::Option<T>` or any other kind of type. */
  datatype Type = PathType(segments: seq<PathSegment>) | OtherType
  datatype PathSegment = PathSegment(ident: string, arguments: PathArguments)
  datatype PathArguments = NoArguments | AngleBracketed(args: seq<GenericArgument>) | Parenthesized
  datatype GenericArgument = TypeArg(ty: Type) | OtherArg

  datatype Field = Field(ident: Option<string>, attrs: seq<Attribute>, ty: Type)
  datatype Fields = Named(named: seq<Field>) | Unnamed(unnamed: seq<Field>) | Unit

  /** An enum variant; `discriminant` is the value of an explicit `= N`. */
  datatype Variant = Variant(ident: string, fields: Fields, discriminant: Option<int>)

  datatype Data = StructData(fields: Fields) | EnumData(variants: seq<Variant>) | UnionData

  datatype DeriveInput = DeriveInput(ident: string, attrs: seq<Attribute>, data: Data)

  /** One constructor per way the macros refuse their input, each a `panic!`,
      `expect` or `unimplemented!` of the source, except three refusals of
      the Rust compiler on the emitted code: `MsgTypeNotU16`, of
      `const MSG_TYPE: u16 = ...` when the literal is not a `u16`;
      `NoReprType`, of `impl TryFrom<> for ..` when the `repr` lookup yields
      no type; and `VariantWithManyValues`, of the one-field patterns
      `Name::Variant(a)` on a variant with several fields. */
  datatype DeriveError =
    | NotAStruct
    | MissingMsgType
    | MsgTypeNotU16
    | TlvTypeNotU64
    | TlvAfterExpectedFields
    | TlvNotMonotonic
    | MissingType
    | TlvValueNotOption
    | OnlyEnums
    | VariantWithoutValue
    | VariantNotTuple
    | VariantWithManyValues
    | MissingRepr
    | InvalidRepr
    | MissingDiscriminant
    | NoReprType

  /** The fields in declaration order; a unit struct has none. */
  function FieldList(fs: Fields): seq<Field>
  {
    match fs
    case Named(n) => n
    case Unnamed(u) => u
    case Unit => []
  }

  /** The attribute is `#[name = lit]` for some literal. */
  predicate IsNameValue(a: Attribute, name: string)
  {
    a.Parsed? && a.meta.NameValue? && a.meta.path == name
  }

  /** `attrs.iter().filter_map(..).next()` for a closure that keeps the literal
      of a `name = lit` attribute: the position of the first such attribute. */
  function FindNameValue(attrs: seq<Attribute>, name: string): (r: Option<nat>)
    ensures r.Some? ==> r.value < |attrs| && IsNameValue(attrs[r.value], name)
    ensures r.Some? ==> forall j :: 0 <= j < r.value ==> !IsNameValue(attrs[j], name)
    ensures r.None? <==> forall j :: 0 <= j < |attrs| ==> !IsNameValue(attrs[j], name)
  {
    if attrs == [] then None
    else if IsNameValue(attrs[0], name) then Some(0)
    else match FindNameValue(attrs[1..], name)
      case None => None
      case Some(k) => Some(k + 1)
  }
}
