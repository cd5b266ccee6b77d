/**
  Strict type declarations and their introspection records (rust/src/types.rs):
  the `TypeClass`, `TypeInfo` and `VariantError` data, `StrictSum::variant_ord`
  and the four `strict_type_info` constructors.

  A Rust type implementing the traits becomes a declaration value: its
  `STRICT_LIB_NAME`, its `any::type_name` string, its constant member table
  and the host functions the traits ask it for (`strict_dumb`,
  `variant_name`, `TryFrom<u8>`). `libname!` and `tn!` are the identity on
  strings.
*/
module StrictTypes {
  import opened Base
  import opened StrictNames
  import opened StrictChecks

  type LibName = string
  type TypeName = string

  /** The recoverable error of converting a raw value into an enum: type name and value. */
  datatype VariantError<V> = VariantError(typeName: TypeName, value: V)

  /** The structural class of a type, carrying its declared member table. */
  datatype TypeClass =
    | Embedded
    | Enum(variants: seq<Member>)
    | Union(variants: seq<Member>)
    | Tuple(ids: seq<u8>)
    | Struct(fields: seq<Member>)

  /** The introspection record `TypeInfo<T>`. */
  datatype TypeInfo<T> = TypeInfo(lib: LibName, name: Option<TypeName>, cls: TypeClass, dumb: T)

  /** What `StrictType` asks of every type: its library name and its compiler type name. */
  datatype StrictType = StrictType(libName: string, typeName: string)

  /** A `StrictTuple`: its `ALL_FIELDS` ids and its `strict_dumb` value. */
  datatype TupleDecl<T> = TupleDecl(ty: StrictType, allFields: seq<u8>, dumb: T)

  /** A `StrictStruct`: its `ALL_FIELDS` table and its `strict_dumb` value. */
  datatype StructDecl<T> = StructDecl(ty: StrictType, allFields: seq<Member>, dumb: T)

  /** A `StrictSum`: its `ALL_VARIANTS` table and its `variant_name` accessor. */
  datatype SumDecl<!T> = SumDecl(ty: StrictType, allVariants: seq<Member>, variantName: T -> string)

  /** A `StrictUnion`: a sum with its own `strict_dumb` value. */
  datatype UnionDecl<!T> = UnionDecl(sum: SumDecl<T>, dumb: T)

  /** A `StrictEnum`: a sum with its partial `TryFrom<u8>` conversion. */
  datatype EnumDecl<!T> = EnumDecl(sum: SumDecl<T>, tryFrom: u8 -> Result<T, VariantError<u8>>)

  /** The `name` field every constructor fills in: `strict_name()` through `tn!`. */
  function TypeNameOf(ty: StrictType): Option<TypeName> {
    Some(CanonicalName(ty.typeName))
  }

  /**
    `StrictSum::variant_ord`: scans `ALL_VARIANTS` in order for the instance's
    variant name and returns the ordinal paired with the first match; with no
    match the source hits `unreachable!`.
  */
  method VariantOrd<T>(sum: SumDecl<T>, x: T) returns (r: Result<u8, Defect>)
    ensures r.Failure? <==> sum.variantName(x) !in Names(sum.allVariants)
    ensures r.Failure? ==> r.error == UnmappedVariant
    ensures r.Success? ==>
      exists i | 0 <= i < |sum.allVariants| ::
        && sum.allVariants[i] == Member(r.value, sum.variantName(x))
        && sum.variantName(x) !in Names(sum.allVariants)[..i]
    ensures r.Success? && WellFormed(sum.allVariants) ==>
      forall i | 0 <= i < |sum.allVariants| && sum.allVariants[i].name == sum.variantName(x) ::
        sum.allVariants[i].ord == r.value
  {
    var variants := sum.allVariants;
    var variant := sum.variantName(x);
    for i := 0 to |variants|
      invariant variant !in Names(variants)[..i]
    {
      if variants[i].name == variant {
        assert Names(variants)[i] == variant;
        ghost var names := Names(variants);
        assert WellFormed(variants) ==> forall j | 0 <= j < |variants| && variants[j].name == variant ::
          j == i by {
          if WellFormed(variants) {
            forall j | 0 <= j < |variants| && variants[j].name == variant ensures j == i {
              assert names[j] == names[i];
            }
          }
        }
        return Success(variants[i].ord);
      }
      assert Names(variants)[..i + 1] == Names(variants)[..i] + [variants[i].name];
    }
    assert Names(variants)[..|variants|] == Names(variants);
    return Failure(UnmappedVariant);
  }

  /**
    `StrictTuple::strict_type_info`: returns only when the tuple check
    passes, and then the class is `Tuple` with exactly the declared field ids.
  */
  function TupleTypeInfo<T>(d: TupleDecl<T>): (r: Result<TypeInfo<T>, Defect>)
    ensures r.Success? <==> |d.allFields| > 0 && Distinct(d.allFields)
    ensures |d.allFields| == 0 ==> r == Failure(NoMembers)
    ensures |d.allFields| > 0 && !Distinct(d.allFields) ==> r == Failure(RepeatedIds)
    ensures r.Success? ==> r.value.cls == Tuple(d.allFields) && r.value.dumb == d.dumb
    ensures r.Success? ==> r.value.lib == d.ty.libName && r.value.name == TypeNameOf(d.ty)
  {
    match CheckTuple(d.allFields)
    case Fail(e) => Failure(e)
    case Pass => Success(TypeInfo(d.ty.libName, TypeNameOf(d.ty), Tuple(d.allFields), d.dumb))
  }

  /**
    `StrictStruct::strict_type_info`: returns only when the struct check
    passes, and then the class is `Struct` with exactly the declared fields.
  */
  function StructTypeInfo<T>(d: StructDecl<T>): (r: Result<TypeInfo<T>, Defect>)
    ensures r.Success? <==> WellFormed(d.allFields)
    ensures |d.allFields| == 0 ==> r == Failure(NoMembers)
    ensures |d.allFields| > 0 && !Distinct(Ords(d.allFields)) ==> r == Failure(RepeatedIds)
    ensures |d.allFields| > 0 && Distinct(Ords(d.allFields)) && !Distinct(Names(d.allFields)) ==>
      r == Failure(RepeatedNames)
    ensures r.Success? ==> r.value.cls == Struct(d.allFields) && r.value.dumb == d.dumb
    ensures r.Success? ==> r.value.lib == d.ty.libName && r.value.name == TypeNameOf(d.ty)
  {
    match CheckStructFields(d.allFields)
    case Fail(e) => Failure(e)
    case Pass => Success(TypeInfo(d.ty.libName, TypeNameOf(d.ty), Struct(d.allFields), d.dumb))
  }

  /**
    `StrictUnion::strict_type_info`: returns only when the variant check
    passes, and then the class is `Union` with exactly the declared variants
    and the placeholder is the union's own `strict_dumb` value.
  */
  function UnionTypeInfo<T>(d: UnionDecl<T>): (r: Result<TypeInfo<T>, Defect>)
    ensures r.Success? <==> WellFormed(d.sum.allVariants)
    ensures |d.sum.allVariants| == 0 ==> r == Failure(NoMembers)
    ensures |d.sum.allVariants| > 0 && !Distinct(Ords(d.sum.allVariants)) ==> r == Failure(RepeatedIds)
    ensures (|d.sum.allVariants| > 0 && Distinct(Ords(d.sum.allVariants))
      && !Distinct(Names(d.sum.allVariants))) ==> r == Failure(RepeatedNames)
    ensures r.Success? ==> r.value.cls == Union(d.sum.allVariants) && r.value.dumb == d.dumb
    ensures r.Success? ==> r.value.lib == d.sum.ty.libName && r.value.name == TypeNameOf(d.sum.ty)
  {
    match CheckSumVariants(d.sum.allVariants)
    case Fail(e) => Failure(e)
    case Pass => Success(TypeInfo(d.sum.ty.libName, TypeNameOf(d.sum.ty), Union(d.sum.allVariants), d.dumb))
  }

  /**
    `StrictEnum::strict_type_info`: returns only when the variant check passes
    and the FIRST declared variant's ordinal converts back into a value; that
    value is the placeholder, and the class is `Enum` with exactly the
    declared variants.
  */
  function EnumTypeInfo<T>(d: EnumDecl<T>): (r: Result<TypeInfo<T>, Defect>)
    ensures r.Success? <==>
      WellFormed(d.sum.allVariants) && d.tryFrom(d.sum.allVariants[0].ord).Success?
    ensures |d.sum.allVariants| == 0 ==> r == Failure(NoMembers)
    ensures |d.sum.allVariants| > 0 && !Distinct(Ords(d.sum.allVariants)) ==> r == Failure(RepeatedIds)
    ensures (|d.sum.allVariants| > 0 && Distinct(Ords(d.sum.allVariants))
      && !Distinct(Names(d.sum.allVariants))) ==> r == Failure(RepeatedNames)
    ensures WellFormed(d.sum.allVariants) && d.tryFrom(d.sum.allVariants[0].ord).Failure? ==>
      r == Failure(InvalidFirstVariant)
    ensures r.Success? ==>
      && r.value.cls == Enum(d.sum.allVariants)
      && d.tryFrom(d.sum.allVariants[0].ord) == Success(r.value.dumb)
    ensures r.Success? ==> r.value.lib == d.sum.ty.libName && r.value.name == TypeNameOf(d.sum.ty)
  {
    var variants := d.sum.allVariants;
    match CheckSumVariants(variants)
    case Fail(e) => Failure(e)
    case Pass =>
      match d.tryFrom(variants[0].ord)
      case Failure(_) => Failure(InvalidFirstVariant)
      case Success(dumb) => Success(TypeInfo(d.sum.ty.libName, TypeNameOf(d.sum.ty), Enum(variants), dumb))
  }
}
