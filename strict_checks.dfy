/**
  The structural validators of rust/src/types.rs: `StrictTuple::strict_check_fields`,
  `StrictStruct::strict_check_fields` and `StrictSum::strict_check_variants`.

  Each `assert!`/`assert_eq!` of the source aborts the program; here the
  abort is the `Fail` verdict naming which check failed, and the checks run in
  the source's order: emptiness, then ordinals, then names.
*/
module StrictChecks {
  import opened Base

  /**
    A definitional defect of a type declaration: the condition under which
    the source aborts instead of returning.
  */
  datatype Defect =
    | NoMembers            // "does not contain a single field/variant defined"
    | RepeatedIds          // "contains repeated field/variant ids"
    | RepeatedNames        // "contains repeated field/variant names"
    | UnmappedVariant      // `unreachable!` in `variant_ord`
    | InvalidFirstVariant  // `expect("first variant contains invalid value")`

  /** The outcome of a validator: it returns, or it aborts with a defect. */
  datatype Verdict = Pass | Fail(defect: Defect)

  /** A field of a struct or a variant of a sum: `(u8, &'static str)`. */
  datatype Member = Member(ord: u8, name: string)

  /** The set a `BTreeSet` collects from the items of `s`. */
  function Elements<X>(s: seq<X>): set<X> {
    set i | 0 <= i < |s| :: s[i]
  }

  /** No two positions of `s` hold the same item. */
  predicate Distinct<X(==)>(s: seq<X>) {
    forall i, j | 0 <= i < j < |s| :: s[i] != s[j]
  }

  /** The ordinals of a member table, in declaration order (the first half of `unzip`). */
  function Ords(table: seq<Member>): (r: seq<u8>)
    ensures |r| == |table| && forall i | 0 <= i < |table| :: r[i] == table[i].ord
  {
    seq(|table|, i requires 0 <= i < |table| => table[i].ord)
  }

  /** The names of a member table, in declaration order (the second half of `unzip`). */
  function Names(table: seq<Member>): (r: seq<string>)
    ensures |r| == |table| && forall i | 0 <= i < |table| :: r[i] == table[i].name
  {
    seq(|table|, i requires 0 <= i < |table| => table[i].name)
  }

  /**
    A member table the named checks accept: at least one member, no ordinal
    twice and no name twice.
  */
  predicate WellFormed(table: seq<Member>) {
    |table| > 0 && Distinct(Ords(table)) && Distinct(Names(table))
  }

  lemma ElementsSnoc<X>(s: seq<X>, x: X)
    ensures Elements(s + [x]) == Elements(s) + {x}
  {
    var t := s + [x];
    forall y | y in Elements(t) ensures y in Elements(s) + {x} {
      var i :| 0 <= i < |t| && t[i] == y;
      if i < |s| { assert s[i] == y; }
    }
    forall y | y in Elements(s) ensures y in Elements(t) {
      var i :| 0 <= i < |s| && s[i] == y;
      assert t[i] == y;
    }
    assert t[|s|] == x;
  }

  /**
    The source compares the size of the collected set with the length of the
    table; the two are equal exactly when the table has no repeated item.
  */
  lemma {:induction false} CardinalityDistinct<X>(s: seq<X>)
    ensures |Elements(s)| <= |s|
    ensures |Elements(s)| == |s| <==> Distinct(s)
    decreases |s|
  {
    if |s| == 0 {
      assert Elements(s) == {};
    } else {
      var prefix, x := s[..|s| - 1], s[|s| - 1];
      assert s == prefix + [x];
      ElementsSnoc(prefix, x);
      CardinalityDistinct(prefix);
      if x in Elements(prefix) {
        var i :| 0 <= i < |prefix| && prefix[i] == x;
        assert s[i] == s[|s| - 1];
        assert !Distinct(s);
      } else {
        assert Distinct(s) <==> Distinct(prefix) by {
          if Distinct(prefix) {
            forall i, j | 0 <= i < j < |s| ensures s[i] != s[j] {
              if j == |s| - 1 {
                assert s[i] == prefix[i];
              } else {
                assert s[i] == prefix[i] && s[j] == prefix[j];
              }
            }
          }
          if Distinct(s) {
            forall i, j | 0 <= i < j < |prefix| ensures prefix[i] != prefix[j] {
              assert s[i] == prefix[i] && s[j] == prefix[j];
            }
          }
        }
      }
    }
  }

  /**
    `StrictTuple::strict_check_fields`, as the pure verdict the type-info
    constructor relies on: an empty field list fails first; otherwise the
    check passes exactly when no field id repeats.
  */
  function CheckTuple(fields: seq<u8>): (r: Verdict)
    ensures r == Pass <==> |fields| > 0 && Distinct(fields)
    ensures r == Fail(NoMembers) <==> |fields| == 0
    ensures r == Fail(RepeatedIds) <==> |fields| > 0 && !Distinct(fields)
  {
    CardinalityDistinct(fields);
    if |fields| == 0 then Fail(NoMembers)
    else if |Elements(fields)| != |fields| then Fail(RepeatedIds)
    else Pass
  }

  /**
    `StrictTuple::strict_check_fields` as the source runs it: the field ids are
    extended into a set one by one, and the set's size is compared with the
    number of fields.
  */
  method CheckTupleFields(fields: seq<u8>) returns (verdict: Verdict)
    ensures verdict == CheckTuple(fields)
  {
    if |fields| == 0 {
      return Fail(NoMembers);
    }
    var ids: set<u8> := {};
    for i := 0 to |fields|
      invariant ids == Elements(fields[..i])
    {
      ElementsSnoc(fields[..i], fields[i]);
      assert fields[..i + 1] == fields[..i] + [fields[i]];
      ids := ids + {fields[i]};
    }
    assert fields[..|fields|] == fields;
    if |ids| != |fields| {
      return Fail(RepeatedIds);
    }
    return Pass;
  }

  /**
    The check shared by structs and sums: the table is `unzip`ped into a set
    of ordinals and a set of names, and each set's size is compared with the
    table's length, ordinals first.
  */
  function CheckMembers(table: seq<Member>): (r: Verdict)
    ensures r == Pass <==> |table| > 0 && Distinct(Ords(table)) && Distinct(Names(table))
    ensures r == Fail(NoMembers) <==> |table| == 0
    ensures r == Fail(RepeatedIds) <==> |table| > 0 && !Distinct(Ords(table))
    ensures r == Fail(RepeatedNames) <==>
      |table| > 0 && Distinct(Ords(table)) && !Distinct(Names(table))
  {
    var ords, names := Ords(table), Names(table);
    CardinalityDistinct(ords);
    CardinalityDistinct(names);
    if |table| == 0 then Fail(NoMembers)
    else if |Elements(ords)| != |table| then Fail(RepeatedIds)
    else if |Elements(names)| != |table| then Fail(RepeatedNames)
    else Pass
  }

  /**
    `StrictStruct::strict_check_fields`: an empty struct fails first, then a
    repeated field id, then a repeated field name.
  */
  function CheckStructFields(fields: seq<Member>): (r: Verdict)
    ensures r == Pass <==> |fields| > 0 && Distinct(Ords(fields)) && Distinct(Names(fields))
    ensures r == Fail(NoMembers) <==> |fields| == 0
    ensures r == Fail(RepeatedIds) <==> |fields| > 0 && !Distinct(Ords(fields))
    ensures r == Fail(RepeatedNames) <==>
      |fields| > 0 && Distinct(Ords(fields)) && !Distinct(Names(fields))
  {
    CheckMembers(fields)
  }

  /**
    `StrictSum::strict_check_variants`: a sum without variants fails first,
    then a repeated variant id, then a repeated variant name.
  */
  function CheckSumVariants(variants: seq<Member>): (r: Verdict)
    ensures r == Pass <==> |variants| > 0 && Distinct(Ords(variants)) && Distinct(Names(variants))
    ensures r == Fail(NoMembers) <==> |variants| == 0
    ensures r == Fail(RepeatedIds) <==> |variants| > 0 && !Distinct(Ords(variants))
    ensures r == Fail(RepeatedNames) <==>
      |variants| > 0 && Distinct(Ords(variants)) && !Distinct(Names(variants))
  {
    CheckMembers(variants)
  }

  /**
    Two members that differ only in their name reach the name check: the
    struct `{(0, "amount"), (1, "amount")}` fails on names, not on ids.
  */
  lemma RepeatedNameOnly(a: u8, b: u8, name: string)
    requires a != b
    ensures CheckStructFields([Member(a, name), Member(b, name)]) == Fail(RepeatedNames)
  {
    var t := [Member(a, name), Member(b, name)];
    assert Names(t)[0] == Names(t)[1];
  }
}
