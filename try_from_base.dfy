/**
 * The `TryFrom` derive for an enum with a primitive representation
 * (`#[repr(u8)] enum Kind { A, B = 5, C }`): the generated
 * `try_from(prim)` gives the variant whose discriminant is `prim`, and
 * `Err(prim)` when there is none.
 *
 * The discriminant of every variant (`Name::Variant as repr`) is assigned by
 * the compiler and is an input here, one integer per variant in declaration
 * order; the compiler makes them distinct and fits them in the `repr` type,
 * so the cast does not change them.
 */
module TryFromBase {
  import opened Common
  import opened Syntax

  /** What the derive generates: the `repr` type the impl converts from and
      the variants in declaration order. */
  datatype TryFromImpl = TryFromImpl(repr: NestedMeta, variants: seq<string>)

  // ---------------------------------------------------------------------
  // The `repr` lookup
  // ---------------------------------------------------------------------

  /** `#[repr(..)]`. */
  predicate IsRepr(a: Attribute)
  {
    a.Parsed? && a.meta.ListMeta? && a.meta.path == "repr"
  }

  /** The index of the first attribute `parse_meta` accepts. */
  function FirstParsed(attrs: seq<Attribute>): (r: Option<nat>)
    ensures r.Some? ==> r.value < |attrs| && attrs[r.value].Parsed?
    ensures r.Some? ==> forall j :: 0 <= j < r.value ==> attrs[j].Unparsable?
    ensures r.None? <==> forall j :: 0 <= j < |attrs| ==> attrs[j].Unparsable?
  {
    if attrs == [] then None
    else if attrs[0].Parsed? then Some(0)
    else match FirstParsed(attrs[1..])
      case None => None
      case Some(k) => Some(k + 1)
  }

  /** The index of the first `#[repr(..)]` attribute. */
  function FirstRepr(attrs: seq<Attribute>): (r: Option<nat>)
    ensures r.Some? ==> r.value < |attrs| && IsRepr(attrs[r.value])
    ensures r.Some? ==> forall j :: 0 <= j < r.value ==> !IsRepr(attrs[j])
    ensures r.None? <==> forall j :: 0 <= j < |attrs| ==> !IsRepr(attrs[j])
  {
    if attrs == [] then None
    else if IsRepr(attrs[0]) then Some(0)
    else match FirstRepr(attrs[1..])
      case None => None
      case Some(k) => Some(k + 1)
  }

  /** The lookup of both `TryFrom` derives as written: the closure under
      `filter_map` yields `Some(None)` for every parseable attribute that is
      not `repr`, so `next()` stops at the first parseable attribute of any
      kind. `Ok(None)` is a `repr` of nothing, which makes the generated impl
      `TryFrom<>`. */
  function ReprAsWritten(attrs: seq<Attribute>): (r: Result<Option<NestedMeta>, DeriveError>)
    ensures r == Err(MissingRepr) <==> FirstParsed(attrs).None?
    ensures r == Ok(None) <==> FirstParsed(attrs).Some? && !IsRepr(attrs[FirstParsed(attrs).value])
  {
    match FirstParsed(attrs)
    case None => Err(MissingRepr)
    case Some(k) =>
      match attrs[k].meta
      case ListMeta(path, nested) =>
        if path != "repr" then Ok(None)
        else if nested == [] then Err(InvalidRepr)
        else Ok(Some(nested[0]))
      case _ => Ok(None)
  }

  /** A doc comment before `#[repr(u8)]` (`/// Kinds` then `#[repr(u8)]`)
      makes the lookup as written find no `repr`, although one is there. */
  lemma DocBeforeReprLost(doc: string, ty: string)
    ensures var attrs := [Parsed(NameValue("doc", StrLit(doc))), Parsed(ListMeta("repr", [NestedPath(ty)]))];
      && FirstRepr(attrs) == Some(1)
      && ReprAsWritten(attrs) == Ok(None)
      && FindRepr(attrs) == Ok(NestedPath(ty))
  {
    var attrs := [Parsed(NameValue("doc", StrLit(doc))), Parsed(ListMeta("repr", [NestedPath(ty)]))];
    assert !IsRepr(attrs[0]) && IsRepr(attrs[1]);
    assert FirstParsed(attrs) == Some(0);
  }

  /** The lookup as intended: the first entry of the first `#[repr(..)]`
      attribute, refused when there is no such attribute or its list is
      empty. */
  function FindRepr(attrs: seq<Attribute>): (r: Result<NestedMeta, DeriveError>)
    ensures r == Err(MissingRepr) <==> forall j :: 0 <= j < |attrs| ==> !IsRepr(attrs[j])
    ensures r.Ok? <==> (exists j :: 0 <= j < |attrs| && IsRepr(attrs[j]))
                       && attrs[FirstRepr(attrs).value].meta.nested != []
    ensures r.Ok? ==> r.value == attrs[FirstRepr(attrs).value].meta.nested[0]
  {
    match FirstRepr(attrs)
    case None => Err(MissingRepr)
    case Some(k) =>
      var nested := attrs[k].meta.nested;
      if nested == [] then Err(InvalidRepr) else Ok(nested[0])
  }

  /** When `#[repr(..)]` is the first parseable attribute, as in
      `#[repr(u8)] enum Kind { .. }` with no attribute before it, the lookup
      as written and the intended one agree. */
  lemma ReprFirstAgrees(attrs: seq<Attribute>)
    requires FirstParsed(attrs).Some? && IsRepr(attrs[FirstParsed(attrs).value])
    ensures FindRepr(attrs).Ok? ==> ReprAsWritten(attrs) == Ok(Some(FindRepr(attrs).value))
    ensures FindRepr(attrs).Err? ==> ReprAsWritten(attrs) == Err(FindRepr(attrs).error)
  {
    var k := FirstParsed(attrs).value;
    assert forall j :: 0 <= j < k ==> !IsRepr(attrs[j]);
    assert FirstRepr(attrs) == Some(k) by {
      FirstReprAt(attrs, k);
    }
  }

  lemma {:induction false} FirstReprAt(attrs: seq<Attribute>, k: nat)
    requires k < |attrs| && IsRepr(attrs[k])
    requires forall j :: 0 <= j < k ==> !IsRepr(attrs[j])
    ensures FirstRepr(attrs) == Some(k)
  {
    if k > 0 {
      assert forall j :: 0 <= j < k - 1 ==> attrs[1..][j] == attrs[j + 1];
      FirstReprAt(attrs[1..], k - 1);
    }
  }

  // ---------------------------------------------------------------------
  // The derive and the generated `try_from`
  // ---------------------------------------------------------------------

  /** The variant names, in declaration order. */
  function VariantNames(vs: seq<Variant>): (names: seq<string>)
    ensures |names| == |vs| && forall i :: 0 <= i < |vs| ==> names[i] == vs[i].ident
  {
    seq(|vs|, i requires 0 <= i < |vs| => vs[i].ident)
  }

  /** `impl_trait` as written: only enums, then the written `repr` lookup;
      when that lookup yields no type, the emitted `TryFrom<>` is refused by
      the compiler. */
  function DeriveTryFrom(input: DeriveInput): (r: Result<TryFromImpl, DeriveError>)
    ensures !input.data.EnumData? ==> r == Err(OnlyEnums)
    ensures input.data.EnumData? ==>
      (r.Ok? <==> ReprAsWritten(input.attrs).Ok? && ReprAsWritten(input.attrs).value.Some?)
    ensures input.data.EnumData? && ReprAsWritten(input.attrs).Err? ==>
      r == Err(ReprAsWritten(input.attrs).error)
    ensures input.data.EnumData? && ReprAsWritten(input.attrs) == Ok(None) ==> r == Err(NoReprType)
    ensures r.Ok? ==> r.value.repr == ReprAsWritten(input.attrs).value.value
    ensures r.Ok? ==> r.value.variants == VariantNames(input.data.variants)
  {
    match input.data
    case EnumData(vs) =>
      (match ReprAsWritten(input.attrs)
       case Err(e) => Err(e)
       case Ok(None) => Err(NoReprType)
       case Ok(Some(repr)) => Ok(TryFromImpl(repr, VariantNames(vs))))
    case _ => Err(OnlyEnums)
  }

  /** `impl_trait` as intended: the `repr` is the first `#[repr(..)]`
      attribute, whatever comes before it. */
  function DeriveTryFromFixed(input: DeriveInput): (r: Result<TryFromImpl, DeriveError>)
    ensures !input.data.EnumData? ==> r == Err(OnlyEnums)
    ensures input.data.EnumData? ==>
      && (r.Ok? <==> FindRepr(input.attrs).Ok?)
      && (r.Ok? ==> r.value.repr == FindRepr(input.attrs).value)
      && (r.Err? ==> r.error == FindRepr(input.attrs).error)
    ensures r.Ok? ==> r.value.variants == VariantNames(input.data.variants)
  {
    match input.data
    case EnumData(vs) =>
      (match FindRepr(input.attrs)
       case Err(e) => Err(e)
       case Ok(repr) => Ok(TryFromImpl(repr, VariantNames(vs))))
    case _ => Err(OnlyEnums)
  }

  /** Whatever the written derive accepts, the intended one accepts with the
      same impl; and when `#[repr(..)]` is the first parseable attribute the
      two give the same outcome. */
  lemma DeriveFixedExtends(input: DeriveInput)
    ensures DeriveTryFrom(input).Ok? ==> DeriveTryFromFixed(input) == DeriveTryFrom(input)
    ensures FirstParsed(input.attrs).Some? && IsRepr(input.attrs[FirstParsed(input.attrs).value]) ==>
      DeriveTryFromFixed(input) == DeriveTryFrom(input)
  {
    var attrs := input.attrs;
    if FirstParsed(attrs).Some? && ReprAsWritten(attrs).Ok? && ReprAsWritten(attrs).value.Some? {
      assert IsRepr(attrs[FirstParsed(attrs).value]);
    }
    if FirstParsed(attrs).Some? && IsRepr(attrs[FirstParsed(attrs).value]) {
      ReprFirstAgrees(attrs);
    }
  }

  /** An enum with a doc comment before `#[repr(u8)]`: the written derive
      refuses it, the intended one accepts it with `u8`. */
  lemma DocBeforeReprRefused(doc: string, ty: string, vs: seq<Variant>)
    ensures var input := DeriveInput("Kind", [Parsed(NameValue("doc", StrLit(doc))), Parsed(ListMeta("repr", [NestedPath(ty)]))], EnumData(vs));
      && DeriveTryFrom(input) == Err(NoReprType)
      && DeriveTryFromFixed(input) == Ok(TryFromImpl(NestedPath(ty), VariantNames(vs)))
  {
    DocBeforeReprLost(doc, ty);
  }

  /** The generated `try_from`: the `match` over the constants `C0`, `C1`, ..
      (the discriminants) selects the first variant whose discriminant is
      `prim`; any other value is returned as the error. */
  function TryFrom(discriminants: seq<int>, prim: int): (r: Result<nat, int>)
    ensures r.Ok? ==> r.value < |discriminants| && discriminants[r.value] == prim
    ensures r.Ok? ==> forall j :: 0 <= j < r.value ==> discriminants[j] != prim
    ensures r.Err? <==> forall j :: 0 <= j < |discriminants| ==> discriminants[j] != prim
    ensures r.Err? ==> r.error == prim
  {
    match FirstIndex(discriminants, prim)
    case None => Err(prim)
    case Some(i) => Ok(i)
  }

  /** `try_from(v as repr) == Ok(v)` for every variant. */
  lemma TryFromDiscriminant(discriminants: seq<int>, i: nat)
    requires Distinct(discriminants) && i < |discriminants|
    ensures TryFrom(discriminants, discriminants[i]) == Ok(i)
  {
    FirstIndexOfDistinct(discriminants, i);
  }
}
