# Strict type classification, modelled in Dafny

This project models the type-classification layer of the `strict_encoding`
library (`rust/src/types.rs`). That layer decides how every strictly
encodable type is classified and checks that its declaration is unambiguous.
It does not read or write bytes. The model covers:

- **Identity** (`StrictNames`, `strict_names.dfy`): `StrictType::strict_name` and
  its helper `get_ident`. The canonical name is derived from the compiler's
  type-path string, which is an input here. `StrictName` is the imperative
  form: a loop that pushes `'_'` and the identifier of each generic argument
  onto a mutable string. It is proved equal to the function `CanonicalName`,
  and the lemmas describe that function.
- **Validation** (`StrictChecks`, `strict_checks.dfy`): the tuple, struct and
  sum checks. The source's aborts (`assert!`, `assert_eq!`, `unreachable!`,
  `expect`) are `Defect` values, one kind per assertion. Each abort becomes a
  `Fail` verdict or a `Failure` result. The checks run in the source's order:
  empty table, then repeated ordinals, then repeated names. The source compares
  the size of a `BTreeSet` with the table length. The model does the same and
  proves that this equals pairwise distinctness.
- **Introspection** (`StrictTypes`, `strict_types.dfy`): the data `TypeClass`,
  `TypeInfo` and `VariantError`, `StrictSum::variant_ord`, and the four
  `strict_type_info` constructors. Each Rust type that implements the traits
  becomes a declaration value: `TupleDecl`, `StructDecl`, `SumDecl`,
  `UnionDecl` or `EnumDecl`. The value holds the type's library name, its
  type-path string, its constant member table and the host functions the
  traits require: `strict_dumb`, `variant_name` and a partial `TryFrom<u8>`.

Where the evident intent and the code disagree, the model follows the code. The intent is a plain identifier for a non-generic type, the lowest ordinal for the enum placeholder, and both struct checks observable. The differences are:

- A type path without `'<'` gets one trailing `'_'` (`a::Bar` becomes `Bar_`).
  Splitting the empty generic tail on `','` yields one empty piece (lemma
  `NonGenericName`).
- The struct and sum checks stop at the first failed assertion. A table with
  repeated ordinals is reported only as `RepeatedIds`, even if its names also
  repeat.
- The enum placeholder is `try_from` of the FIRST declared variant's ordinal.
  This is not necessarily the lowest ordinal.
- `trim_end_matches('>')` removes every trailing `'>'`, including the closing
  `'>'` of a nested generic. `a::Foo<b::Bar<u8>>` is therefore named
  `Foo_Bar<u8`, with an unbalanced `'<'` (lemma `NestedGenericName`).
  `get_ident` strips up to the last `"::"` even inside a nested argument list,
  so `a::Foo<b::Bar<c::Baz>>` is named `Foo_Baz`. A comma inside a nested
  argument list also splits that argument.
- Generic arguments are split on `','` only. A space after the comma stays in
  the piece unless a `"::"` strips it. For example, `a::Foo<u8, u16>` is named
  `Foo_u8_ u16`.

## Model

| member | source | states |
|---|---|---|
| `StrictNames.RFindSep` | rust/src/types.rs:45 | finds the start of the LAST `"::"` in the path, with no `"::"` after it; it finds none exactly when the path contains no `"::"` |
| `StrictNames.GetIdentUnqualified` | rust/src/types.rs:45 | `get_ident` returns a suffix of the path; without `"::"` it is the whole path; otherwise it starts right after the last `"::"` and contains no `"::"` |
| `StrictNames.FindChar` | rust/src/types.rs:48 | the first occurrence of a character, with none before it; none exactly when the character is absent |
| `StrictNames.SplitGenericsParts` | rust/src/types.rs:48 | `split_once("<")` with `unwrap_or((name, ""))`: without `'<'` the result is `(name, "")`; otherwise the base holds no `'<'` and `base + "<" + tail` is the name |
| `StrictNames.TrimEndMatches` | rust/src/types.rs:49 | `trim_end_matches('>')` keeps the longest prefix that does not end with `'>'`; everything it removes is `'>'` |
| `StrictNames.Split` | rust/src/types.rs:51 | `split(',')` yields at least one piece, no piece contains `','`, and joining the pieces with `','` gives back the input |
| `StrictNames.SplitJoin` | rust/src/types.rs:51 | splitting a join of comma-free pieces gives back exactly those pieces, in order |
| `StrictNames.PushArgsConcat` | rust/src/types.rs:51-54 | the loop's pushes compose: pushing `a` and then `b` is pushing `a + b` |
| `StrictNames.PushArgsPrefix` | rust/src/types.rs:50-54 | the loop only appends: the result is the starting identifier followed by `'_'`-prefixed argument identifiers |
| `StrictNames.StrictName` | rust/src/types.rs:44-56 | the default body of `strict_name` always returns `Some`, and the string it builds is the canonical name of the type path |
| `StrictNames.NonGenericName` | rust/src/types.rs:48-55 | a path without `'<'` is named by its unqualified identifier followed by exactly one `'_'` |
| `StrictNames.GenericName` | rust/src/types.rs:47-55 | `base<a1,...,an>` with comma-free arguments, the last of which does not end in `'>'` (so not a nested generic), is named by the unqualified base, then `'_'` and the unqualified identifier of each argument, left to right |
| `StrictNames.NestedGenericName` | rust/src/types.rs:48-54 | for a nested generic as the only argument, `base<inner<arg>>`, the trim also removes the inner closing `'>'`: the name is the unqualified base, `'_'`, and the identifier of `inner<arg` |
| `StrictChecks.CardinalityDistinct` | rust/src/types.rs:74-81 | the set collected from a table is never larger than the table, and it has the same size exactly when no item repeats |
| `StrictChecks.CheckTuple` | rust/src/types.rs:67-82 | the tuple check passes iff the id list is non-empty and has no repeated id; an empty list fails with `NoMembers` before any duplicate check; otherwise a repeat fails with `RepeatedIds` |
| `StrictChecks.CheckTupleFields` | rust/src/types.rs:74-81 | extending a set with the ids one at a time and comparing its size gives the verdict of the tuple check |
| `StrictChecks.CheckMembers` | rust/src/types.rs:105-117 | after `unzip` into an ordinal set and a name set, the check passes iff the table is non-empty with distinct ordinals and distinct names; it fails on emptiness, then on ordinals, then on names |
| `StrictChecks.CheckStructFields` | rust/src/types.rs:98-118 | the struct check passes iff the fields are non-empty with distinct ids and distinct names; failures come in that order |
| `StrictChecks.CheckSumVariants` | rust/src/types.rs:134-154 | the sum check passes iff the variants are non-empty with distinct ids and distinct names; failures come in that order |
| `StrictChecks.RepeatedNameOnly` | rust/src/types.rs:106-117 | two fields with different ids and the same name (`(0,"amount")`, `(1,"amount")`) fail on names, not on ids |
| `StrictTypes.VariantOrd` | rust/src/types.rs:156-168 | returns the ordinal of the first declared variant whose name is the instance's variant name; aborts (`UnmappedVariant`) iff no variant has that name; on a table that passes the sum check, every variant with that name has the returned ordinal |
| `StrictTypes.TupleTypeInfo` | rust/src/types.rs:84-92 | returns iff the tuple check passes, otherwise fails with its defect; the class is `Tuple` with exactly the declared ids; the placeholder is the type's `strict_dumb` |
| `StrictTypes.StructTypeInfo` | rust/src/types.rs:120-128 | returns iff the struct check passes, otherwise fails with its defect; the class is `Struct` with exactly the declared fields |
| `StrictTypes.UnionTypeInfo` | rust/src/types.rs:173-181 | returns iff the sum check passes, otherwise fails with its defect; the class is `Union` with exactly the declared variants; the placeholder is the union's own `strict_dumb` |
| `StrictTypes.EnumTypeInfo` | rust/src/types.rs:191-200 | returns iff the sum check passes AND `try_from` of the first declared ordinal succeeds; check defects come first, then `InvalidFirstVariant`; the class is `Enum` with exactly the declared variants and the placeholder is that converted value |

`TypeClass`, `TypeInfo` and `VariantError` (rust/src/types.rs:28-30 and 203-216)
are datatypes of the same shape in `StrictTypes`. With the default body of
`strict_name`, the name every constructor records is
`Some(CanonicalName(type path))`. `StrictName` is the method form of that
value.

## Left out

- TypeNameOf: the model fixes the DEFAULT bodies of the overridable trait
  methods `strict_name`, `strict_check_fields` and `strict_check_variants`
  (rust/src/types.rs:44-56, 67-82, 98-118, 134-154). A type whose overridden
  `strict_name` returns `None` is not modelled, and neither is an overridden
  validator. So `TypeInfo.name` is never `None` here, and the
  `"<unnamed>"` fallback of the panic messages is never reached.

- `any::type_name` reflection (rust/src/types.rs:47): the compiler decides the
  format of that string, so the model takes it as the input `typeName`.
- The `libname!` and `tn!` macros and the `LibName`, `TypeName` and `FieldName`
  constructors are defined elsewhere in the crate and are not part of this
  model. They are the identity on strings here, so any validation they do is
  not modelled.
- `StrictDumb` and its blanket implementation through `Default`
  (rust/src/types.rs:32-40): the placeholder is a value given with the
  declaration.
- `TryFrom<u8>` and `From<Self> for u8` (rust/src/types.rs:186-187) are host
  conversions. `TryFrom<u8>` is a given partial function. `From<Self>` is never
  called in this file.
- The enum round trip (every declared ordinal converts to a value whose
  variant name maps back to that ordinal) belongs to each host type's
  conversions. This file does not enforce it. `VariantOrd` states the lookup
  half of that law for any table that passes the sum check.
- `StrictEnum::from_variant_name` (rust/src/types.rs:189) is only declared, with
  no body.
- The `&T` blanket implementation (rust/src/types.rs:59-61) only forwards
  `STRICT_LIB_NAME`.
- The `Display`/`Error` derivation of `VariantError` (rust/src/types.rs:28-30)
  and the text of every panic message are not modelled. The model keeps only
  which check failed. The eight `assert!`/`assert_eq!` messages
  (rust/src/types.rs:69-81, 100-117, 136-153) include `strict_name()` or
  `"<unnamed>"`. The `unreachable!` message of `variant_ord`
  (rust/src/types.rs:163-167) includes the raw `any::type_name` path instead.
  The `expect` message of the enum constructor (rust/src/types.rs:198) names
  no type. The default `strict_name` always returns `Some`, so calling it for
  a message cannot abort.
- Determinism of `strict_name` needs no lemma: `CanonicalName` is a function
  of the path string, and `StrictName` is proved equal to it.
