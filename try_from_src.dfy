/**
 * The `TryFrom` derive of the top-level crate: every variant must carry an
 * explicit discriminant (`enum Kind { A = 1, B = 5 }`), the generated
 * `try_from(prim)` matches `prim` against those literals and its error
 * carries nothing (`Err(())`).
 */
module TryFromSrc {
  import opened Common
  import opened Syntax
  import TryFromBase

  /** What the derive generates: the `repr` type and, per variant in
      declaration order, its name and explicit discriminant. */
  datatype TryFromImpl = TryFromImpl(repr: NestedMeta, arms: seq<(string, int)>)

  /** The explicit discriminant of every variant, or the refusal when some
      variant has none. */
  function Discriminants(variants: seq<Variant>): (r: Result<seq<int>, DeriveError>)
    ensures r.Ok? <==> forall i :: 0 <= i < |variants| ==> variants[i].discriminant.Some?
    ensures r.Err? ==> r.error == MissingDiscriminant
    ensures r.Ok? ==> |r.value| == |variants|
    ensures r.Ok? ==> forall i :: 0 <= i < |variants| ==> r.value[i] == variants[i].discriminant.value
  {
    if variants == [] then Ok([])
    else match variants[0].discriminant
      case None => Err(MissingDiscriminant)
      case Some(d) =>
        match Discriminants(variants[1..])
        case Err(e) =>
          assert forall j :: 1 <= j < |variants| ==> variants[1..][j - 1] == variants[j];
          Err(e)
        case Ok(rest) =>
          assert forall j :: 1 <= j < |variants| ==> variants[1..][j - 1] == variants[j];
          Ok([d] + rest)
  }

  /** `impl_trait`: only enums, then the `repr` lookup as written, then the
      discriminants, which are demanded while the generated arms are spliced
      in; a lookup that yields no type is refused only afterwards, by the
      compiler reading the emitted `TryFrom<>`. */
  function DeriveTryFrom(input: DeriveInput): (r: Result<TryFromImpl, DeriveError>)
    ensures !input.data.EnumData? ==> r == Err(OnlyEnums)
    ensures input.data.EnumData? && TryFromBase.ReprAsWritten(input.attrs).Err? ==>
      r == Err(TryFromBase.ReprAsWritten(input.attrs).error)
    ensures input.data.EnumData? && TryFromBase.ReprAsWritten(input.attrs).Ok?
            && (exists i :: 0 <= i < |input.data.variants| && input.data.variants[i].discriminant.None?) ==>
      r == Err(MissingDiscriminant)
    ensures input.data.EnumData? && TryFromBase.ReprAsWritten(input.attrs) == Ok(None)
            && (forall i :: 0 <= i < |input.data.variants| ==> input.data.variants[i].discriminant.Some?) ==>
      r == Err(NoReprType)
    ensures r.Ok? <==>
      && input.data.EnumData?
      && TryFromBase.ReprAsWritten(input.attrs).Ok?
      && TryFromBase.ReprAsWritten(input.attrs).value.Some?
      && forall i :: 0 <= i < |input.data.variants| ==> input.data.variants[i].discriminant.Some?
    ensures r.Ok? ==> TryFromBase.ReprAsWritten(input.attrs) == Ok(Some(r.value.repr))
    ensures r.Ok? ==> |r.value.arms| == |input.data.variants|
    ensures r.Ok? ==> forall i :: 0 <= i < |input.data.variants| ==>
      r.value.arms[i] == (input.data.variants[i].ident, input.data.variants[i].discriminant.value)
  {
    match input.data
    case EnumData(vs) =>
      (match TryFromBase.ReprAsWritten(input.attrs)
       case Err(e) => Err(e)
       case Ok(repr) =>
         match Discriminants(vs)
         case Err(e) => Err(e)
         case Ok(ds) =>
           if repr.None? then Err(NoReprType)
           else Ok(TryFromImpl(repr.value, seq(|vs|, i requires 0 <= i < |vs| => (vs[i].ident, ds[i])))))
    case _ => Err(OnlyEnums)
  }

  /** A doc comment before `#[repr(u8)]` on an enum whose variant has no
      discriminant: the discriminant is refused first, while the macro runs. */
  lemma MissingDiscriminantFirst(doc: string, ty: string, name: string)
    ensures var attrs := [Parsed(NameValue("doc", StrLit(doc))), Parsed(ListMeta("repr", [NestedPath(ty)]))];
      DeriveTryFrom(DeriveInput("Kind", attrs, EnumData([Variant(name, Unit, None)]))) == Err(MissingDiscriminant)
  {
    var attrs := [Parsed(NameValue("doc", StrLit(doc))), Parsed(ListMeta("repr", [NestedPath(ty)]))];
    TryFromBase.DocBeforeReprLost(doc, ty);
    var vs := [Variant(name, Unit, None)];
    assert vs[0].discriminant.None?;
  }

  /** The discriminants of the generated arms, in order. */
  function ArmValues(arms: seq<(string, int)>): (ds: seq<int>)
    ensures |ds| == |arms| && forall i :: 0 <= i < |arms| ==> ds[i] == arms[i].1
  {
    seq(|arms|, i requires 0 <= i < |arms| => arms[i].1)
  }

  /** The generated `try_from`: the first arm whose literal is `prim`, else
      `Err(())`. */
  function TryFrom(arms: seq<(string, int)>, prim: int): (r: Result<nat, ()>)
    ensures r.Ok? ==> r.value < |arms| && arms[r.value].1 == prim
    ensures r.Ok? ==> forall j :: 0 <= j < r.value ==> arms[j].1 != prim
    ensures r.Err? <==> forall j :: 0 <= j < |arms| ==> arms[j].1 != prim
  {
    match FirstIndex(ArmValues(arms), prim)
    case None => Err(())
    case Some(i) => Ok(i)
  }

  /** `try_from(N) == Ok(V)` for the variant `V = N`. */
  lemma TryFromDiscriminant(arms: seq<(string, int)>, i: nat)
    requires Distinct(ArmValues(arms)) && i < |arms|
    ensures TryFrom(arms, arms[i].1) == Ok(i)
  {
    FirstIndexOfDistinct(ArmValues(arms), i);
  }

  /** With every discriminant explicit, the two derives accept the same enums,
      agree on the `repr`, and their `try_from`s pick the same variant; they
      differ only in the error, which here carries nothing. */
  lemma AgreesWithBase(input: DeriveInput, prim: int)
    requires input.data.EnumData?
    requires forall i :: 0 <= i < |input.data.variants| ==> input.data.variants[i].discriminant.Some?
    ensures DeriveTryFrom(input).Ok? <==> TryFromBase.DeriveTryFrom(input).Ok?
    ensures DeriveTryFrom(input).Ok? ==>
      && DeriveTryFrom(input).value.repr == TryFromBase.DeriveTryFrom(input).value.repr
      && var ds := Discriminants(input.data.variants).value;
         && ArmValues(DeriveTryFrom(input).value.arms) == ds
         && (TryFrom(DeriveTryFrom(input).value.arms, prim).Ok? <==> TryFromBase.TryFrom(ds, prim).Ok?)
         && (TryFrom(DeriveTryFrom(input).value.arms, prim).Ok? ==>
               TryFrom(DeriveTryFrom(input).value.arms, prim).value == TryFromBase.TryFrom(ds, prim).value)
  {
    if DeriveTryFrom(input).Ok? {
      var arms := DeriveTryFrom(input).value.arms;
      var ds := Discriminants(input.data.variants).value;
      assert ArmValues(arms) == ds;
    }
  }
}
