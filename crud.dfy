/** The question bank's HTTP endpoints, reduced to the decisions they make: the `WHERE` clause
    built from the four optional type flags of `GET /trivia`, the page and offset of that
    query, and the all-or-nothing insertion behind `POST /trivia` and `POST /trivia/batch`.
    The database itself is not modelled: a query is its text, an insertion the rows it
    writes. */
module CrudEndpoints {
  import opened Wrappers
  import opened DotNetText
  import opened TriviaTypes
  import Validation
  import Modular

  // ---------------------------------------------------------------------------------------
  // The type filter and its WHERE clause

  /** `QuestionTypeFilter`: per question type, `true` to ask for only the included types,
      `false` to exclude the type, `None` to say nothing about it. */
  datatype QuestionTypeFilter = QuestionTypeFilter(
    includeMultipleChoice: Option<bool>,
    includeTrueOrFalse: Option<bool>,
    includeFillInTheBlank: Option<bool>,
    includeOrdering: Option<bool>)
  {
    /** The flag the filter holds for a question type. */
    function Flag(t: QuestionType): Option<bool> {
      match t
      case MultipleChoice => includeMultipleChoice
      case TrueOrFalse => includeTrueOrFalse
      case FillInTheBlank => includeFillInTheBlank
      case Ordering => includeOrdering
    }

    /** No flag is given. */
    predicate AllNull() {
      && includeMultipleChoice.None? && includeTrueOrFalse.None?
      && includeFillInTheBlank.None? && includeOrdering.None?
    }
  }

  /** The question types in the order of `allTypes`, which is the enumeration's order. */
  const AllTypes: seq<QuestionType> := [MultipleChoice, TrueOrFalse, FillInTheBlank, Ordering]

  lemma AllTypesComplete()
    ensures forall t: QuestionType :: t in AllTypes
  {
    forall t: QuestionType ensures t in AllTypes {
      match t
      case MultipleChoice => assert AllTypes[0] == t;
      case TrueOrFalse => assert AllTypes[1] == t;
      case FillInTheBlank => assert AllTypes[2] == t;
      case Ordering => assert AllTypes[3] == t;
    }
  }

  /** The types of a list that are listed in increasing enumeration value. */
  predicate Ascending(types: seq<QuestionType>) {
    forall i, j :: 0 <= i < j < |types| ==> types[i].EnumValue() < types[j].EnumValue()
  }

  /** `Where(t => t.Include == flag)` over a list of types: the types whose flag is `flag`, in
      the list's order. */
  function Where(filter: QuestionTypeFilter, flag: bool, types: seq<QuestionType>)
    : (r: seq<QuestionType>)
    requires Ascending(types)
    ensures forall t :: t in r <==> t in types && filter.Flag(t) == Some(flag)
    ensures Ascending(r)
  {
    if types == [] then []
    else
      var rest := Where(filter, flag, types[1..]);
      if filter.Flag(types[0]) == Some(flag) then
        forall t | t in rest ensures types[0].EnumValue() < t.EnumValue() {
          var k :| 0 <= k < |types[1..]| && types[1..][k] == t;
          assert types[k + 1] == t;
        }
        AscendingCons(types[0], rest);
        [types[0]] + rest
      else rest
  }

  lemma AscendingCons(x: QuestionType, rest: seq<QuestionType>)
    requires Ascending(rest) && forall t :: t in rest ==> x.EnumValue() < t.EnumValue()
    ensures Ascending([x] + rest)
  {
    var r := [x] + rest;
    forall i, j | 0 <= i < j < |r| ensures r[i].EnumValue() < r[j].EnumValue() {
      assert r[j] == rest[j - 1];
      if i > 0 { assert r[i] == rest[i - 1]; }
    }
  }

  /** The types the filter gives the flag `flag`, in enumeration order. */
  function TypesWith(filter: QuestionTypeFilter, flag: bool): (r: seq<QuestionType>)
    ensures forall t :: t in r <==> filter.Flag(t) == Some(flag)
    ensures Ascending(r)
  {
    AllTypesComplete();
    Where(filter, flag, AllTypes)
  }

  /** How a type's value is written in the clause: `((int)t).ToString()`. */
  function ValueText(t: QuestionType): string {
    IntToString(t.EnumValue())
  }

  /** `Select(t => t.EnumValue.ToString())`. */
  function EnumValues(types: seq<QuestionType>): (r: seq<string>)
    ensures |r| == |types| && forall i :: 0 <= i < |r| ==> r[i] == ValueText(types[i])
  {
    seq(|types|, i requires 0 <= i < |types| => ValueText(types[i]))
  }

  /** One condition of the clause: the type is among the listed values, or not. */
  datatype Condition = InList(values: seq<string>) | NotInList(values: seq<string>)

  function ConditionText(c: Condition): string {
    match c
    case InList(values) => "(Data->>'QuestionType')::int IN (" + Join(", ", values) + ")"
    case NotInList(values) => "(Data->>'QuestionType')::int NOT IN (" + Join(", ", values) + ")"
  }

  function ConditionTexts(cs: seq<Condition>): (r: seq<string>)
    ensures |r| == |cs| && forall i :: 0 <= i < |r| ==> r[i] == ConditionText(cs[i])
  {
    seq(|cs|, i requires 0 <= i < |cs| => ConditionText(cs[i]))
  }

  /** The filter gives no flag exactly when no type is included and none excluded. */
  lemma NoFlagsNoTypes(filter: QuestionTypeFilter)
    ensures filter.AllNull() <==> TypesWith(filter, true) == [] && TypesWith(filter, false) == []
  {
    if !filter.AllNull() {
      var t :| filter.Flag(t).Some?;
      var flag := filter.Flag(t).value;
      assert filter.Flag(t) == Some(flag);
      if flag {
        assert t in TypesWith(filter, true);
      } else {
        assert t in TypesWith(filter, false);
      }
    }
  }

  /** The conditions of the clause: an `IN` over the included types when there are any,
      then a `NOT IN` over the excluded types when there are any. */
  function Conditions(filter: QuestionTypeFilter): (r: seq<Condition>)
    ensures r == [] <==> filter.AllNull()
    ensures |r| <= 2
    ensures forall i :: 0 <= i < |r| ==> r[i].values != []
    ensures forall i, j :: 0 <= i < j < |r| ==> r[i].InList? && r[j].NotInList?
    ensures forall i :: 0 <= i < |r| && r[i].InList? ==>
              r[i].values == EnumValues(TypesWith(filter, true))
    ensures forall i :: 0 <= i < |r| && r[i].NotInList? ==>
              r[i].values == EnumValues(TypesWith(filter, false))
  {
    var includeTypes := EnumValues(TypesWith(filter, true));
    var excludeTypes := EnumValues(TypesWith(filter, false));
    NoFlagsNoTypes(filter);
    (if includeTypes != [] then [InList(includeTypes)] else [])
      + (if excludeTypes != [] then [NotInList(excludeTypes)] else [])
  }

  /** What the clause text says of an item of type `t`: the type's value is, or is not,
      among the listed ones. */
  predicate Holds(c: Condition, t: QuestionType) {
    match c
    case InList(values) => ValueText(t) in values
    case NotInList(values) => ValueText(t) !in values
  }

  /** The types the filter asks for: no excluded type, and, when some type is included,
      only included types. */
  predicate Admits(filter: QuestionTypeFilter, t: QuestionType) {
    && filter.Flag(t) != Some(false)
    && (TypesWith(filter, true) == [] || filter.Flag(t) == Some(true))
  }

  /** `GetWhereClause`: collect the conditions, then join them after `WHERE`. */
  method GetWhereClause(filter: QuestionTypeFilter) returns (clause: string)
    ensures clause == "" <==> filter.AllNull()
    ensures clause != "" ==> clause == "WHERE " + Join(" AND ", ConditionTexts(Conditions(filter)))
  {
    var includeTypes := EnumValues(TypesWith(filter, true));
    var excludeTypes := EnumValues(TypesWith(filter, false));
    var conditions: seq<string> := [];
    if |includeTypes| > 0 {
      conditions := conditions + [ConditionText(InList(includeTypes))];
    }
    if |excludeTypes| > 0 {
      conditions := conditions + [ConditionText(NotInList(excludeTypes))];
    }
    assert conditions == ConditionTexts(Conditions(filter));
    clause := if |conditions| > 0 then "WHERE " + Join(" AND ", conditions) else "";
  }

  // ---------------------------------------------------------------------------------------
  // Properties of the clause

  /** A type's value is in the list of the types with flag `flag` exactly when the filter
      gives that type the flag `flag`. */
  lemma ValueListed(filter: QuestionTypeFilter, flag: bool, t: QuestionType)
    ensures ValueText(t) in EnumValues(TypesWith(filter, flag)) <==> filter.Flag(t) == Some(flag)
  {
    var types := TypesWith(filter, flag);
    var values := EnumValues(types);
    if ValueText(t) in values {
      var i :| 0 <= i < |values| && values[i] == ValueText(t);
      IntToStringInjective(types[i].EnumValue(), t.EnumValue());
      assert types[i] == t;
    }
  }

  /** No type's value is both in the `IN` list and in the `NOT IN` list. */
  lemma NoTypeInBothLists(filter: QuestionTypeFilter, t: QuestionType)
    ensures !(ValueText(t) in EnumValues(TypesWith(filter, true))
              && ValueText(t) in EnumValues(TypesWith(filter, false)))
  {
    ValueListed(filter, true, t);
    ValueListed(filter, false, t);
  }

  /** The clause selects exactly the items whose type the filter asks for. */
  lemma WhereClauseSelects(filter: QuestionTypeFilter, t: QuestionType)
    ensures (forall c :: c in Conditions(filter) ==> Holds(c, t)) <==> Admits(filter, t)
  {
    ValueListed(filter, true, t);
    ValueListed(filter, false, t);
    var cs := Conditions(filter);
    var includeTypes := EnumValues(TypesWith(filter, true));
    var excludeTypes := EnumValues(TypesWith(filter, false));
    assert cs == (if includeTypes != [] then [InList(includeTypes)] else [])
               + (if excludeTypes != [] then [NotInList(excludeTypes)] else []);
    if filter.Flag(t) == Some(false) {
      assert NotInList(excludeTypes) in cs && !Holds(NotInList(excludeTypes), t);
    } else if TypesWith(filter, true) != [] && filter.Flag(t) != Some(true) {
      assert InList(includeTypes) in cs && !Holds(InList(includeTypes), t);
    }
  }

  // ---------------------------------------------------------------------------------------
  // Paging

  const DefaultPage: Int32 := 1
  const DefaultPageSize: Int32 := 20

  /** `page ??= 1; pageSize ??= 20;` and the query's `LIMIT @PageSize OFFSET @Offset` with
      `Offset = (page - 1) * pageSize`, both steps computed on 32-bit `int`. */
  method Paging(pageParam: Option<Int32>, pageSizeParam: Option<Int32>)
    returns (limit: Int32, offset: Int32)
    ensures limit == pageSizeParam.GetOr(DefaultPageSize)
    ensures offset == Int32Wrap((pageParam.GetOr(DefaultPage) - 1) * limit)
    ensures var exact := (pageParam.GetOr(DefaultPage) - 1) * limit;
            Int32Min <= exact <= Int32Max ==> offset == exact
    ensures pageParam.None? ==> offset == 0
  {
    var page := pageParam;
    var pageSize := pageSizeParam;
    if page.None? {
      page := Some(DefaultPage);
    }
    if pageSize.None? {
      pageSize := Some(DefaultPageSize);
    }
    limit := pageSize.value;
    var previousPages := Int32Wrap(page.value as int - 1);
    offset := Int32Wrap(previousPages as int * pageSize.value as int);
    WrapOfProduct(page.value as int - 1, pageSize.value);
  }

  /** Adding a multiple of 2^32 does not change the wrapped value. */
  lemma WrapShift(x: int, k: int)
    ensures Int32Wrap(x + k * Int32Modulus) == Int32Wrap(x)
  {
    var y := x - Int32Min;
    Modular.ModUnique(y + k * Int32Modulus, Int32Modulus, y / Int32Modulus + k, y % Int32Modulus);
  }

  /** Wrapping a factor before multiplying gives the same 32-bit product as multiplying
      exactly and wrapping once. */
  lemma WrapOfProduct(a: int, n: int)
    ensures Int32Wrap(Int32Wrap(a) * n) == Int32Wrap(a * n)
  {
    var w := Int32Wrap(a);
    var j := (w - a) / Int32Modulus;
    assert w == a + j * Int32Modulus;
    assert w * n == a * n + (j * n) * Int32Modulus;
    WrapShift(a * n, j * n);
  }

  // ---------------------------------------------------------------------------------------
  // Insertion

  /** A rejected item, tagged with its position in the request. The validator's messages are
      not modelled. */
  datatype ValidationFailure = ValidationFailure(index: nat)

  /** `InsertResults`: the ids of the inserted items, or the failures. */
  datatype InsertResults = InsertResults(
    insertedIds: Option<seq<string>>,
    errors: Option<seq<ValidationFailure>>)

  /** One failure per item the backend validator rejects, in request order. */
  function Failures(items: seq<StoredItem>): (r: seq<ValidationFailure>)
    ensures forall i: nat :: ValidationFailure(i) in r <==>
              i < |items| && !Validation.BackendValid(items[i])
    ensures forall j, k :: 0 <= j < k < |r| ==> r[j].index < r[k].index
  {
    if items == [] then []
    else
      var last := |items| - 1;
      var init := Failures(items[..last]);
      assert forall i :: 0 <= i < last ==> items[..last][i] == items[i];
      var tail := if Validation.BackendValid(items[last]) then [] else [ValidationFailure(last)];
      FailuresSnoc(items, init, tail);
      init + tail
  }

  /** The failures of all items are those of all but the last, then the last one's. */
  lemma FailuresSnoc(items: seq<StoredItem>, init: seq<ValidationFailure>,
                     tail: seq<ValidationFailure>)
    requires items != []
    requires forall i: nat :: ValidationFailure(i) in init <==>
               i < |items| - 1 && !Validation.BackendValid(items[i])
    requires forall j, k :: 0 <= j < k < |init| ==> init[j].index < init[k].index
    requires tail == if Validation.BackendValid(items[|items| - 1]) then []
                     else [ValidationFailure(|items| - 1)]
    ensures forall i: nat :: ValidationFailure(i) in init + tail <==>
              i < |items| && !Validation.BackendValid(items[i])
    ensures forall j, k :: 0 <= j < k < |init + tail| ==>
              (init + tail)[j].index < (init + tail)[k].index
  {
    forall j | 0 <= j < |init| ensures init[j].index < |items| - 1 {
      assert ValidationFailure(init[j].index) in init;
    }
  }

  /** `InsertTriviaItemsToDb`, with `freshIds[i]` the id `NewGuid` gives item `i`. If any item
      is invalid, the failures are returned and no row is written; otherwise every item is
      written under its fresh id and the ids are returned in request order. The second
      component is the rows written. */
  function InsertTriviaItems(items: seq<StoredItem>, freshIds: seq<string>)
    : (r: (InsertResults, seq<StoredItem>))
    requires |freshIds| == |items|
    ensures r.0.errors.Some? <==>
              exists i :: 0 <= i < |items| && !Validation.BackendValid(items[i])
    ensures r.0.errors.Some? ==>
              r.0.insertedIds.None? && r.1 == [] && r.0.errors.value == Failures(items)
    ensures r.0.errors.None? ==>
              && r.0.insertedIds == Some(freshIds)
              && |r.1| == |items|
              && forall i :: 0 <= i < |items| ==>
                   r.1[i] == items[i].(id := Some(freshIds[i])) && Validation.BackendValid(r.1[i])
  {
    var errors := Failures(items);
    NoFailuresIffAllValid(items);
    if |errors| > 0 then (InsertResults(None, Some(errors)), [])
    else
      (InsertResults(Some(freshIds), None),
       seq(|items|, i requires 0 <= i < |items| => items[i].(id := Some(freshIds[i]))))
  }

  /** There are no failures exactly when every item is valid. */
  lemma NoFailuresIffAllValid(items: seq<StoredItem>)
    ensures |Failures(items)| == 0 <==>
              forall i :: 0 <= i < |items| ==> Validation.BackendValid(items[i])
  {
    var errors := Failures(items);
    if |errors| > 0 {
      assert errors[0] == ValidationFailure(errors[0].index);
    } else {
      forall i | 0 <= i < |items| ensures Validation.BackendValid(items[i]) {
        assert ValidationFailure(i) !in errors;
      }
    }
  }

  /** The answers of the two create endpoints. */
  datatype CreateResponse =
    | CreatedOne(location: string, createdId: string)
    | CreatedBatch(location: string, createdIds: seq<string>)
    | Rejected(failures: seq<ValidationFailure>)
    | NoItemsProvided

  /** `POST /trivia`: one item, created under its fresh id or rejected with its failure. */
  function CreateOne(item: StoredItem, freshId: string): (r: (CreateResponse, seq<StoredItem>))
    ensures Validation.BackendValid(item) ==>
              r == (CreatedOne("/trivia/" + freshId, freshId), [item.(id := Some(freshId))])
    ensures !Validation.BackendValid(item) ==> r == (Rejected([ValidationFailure(0)]), [])
  {
    var inserted := InsertTriviaItems([item], [freshId]);
    assert [item][..0] == [];
    assert Failures([item]) == if Validation.BackendValid(item) then [] else [ValidationFailure(0)];
    if inserted.0.errors.Some? then
      (Rejected(inserted.0.errors.value), inserted.1)
    else
      var createdId := inserted.0.insertedIds.value[0];
      assert inserted.1 == [item.(id := Some(freshId))];
      (CreatedOne("/trivia/" + createdId, createdId), inserted.1)
  }

  /** `POST /trivia/batch`: an empty batch is refused; otherwise all items are created or
      none, as `InsertTriviaItems` decides. */
  function CreateBatch(items: seq<StoredItem>, freshIds: seq<string>)
    : (r: (CreateResponse, seq<StoredItem>))
    requires |freshIds| == |items|
    ensures items == [] ==> r == (NoItemsProvided, [])
    ensures items != [] && (forall i :: 0 <= i < |items| ==> Validation.BackendValid(items[i])) ==>
              && r.0 == CreatedBatch("/trivia/batch", freshIds)
              && |r.1| == |items|
              && forall i :: 0 <= i < |items| ==> r.1[i] == items[i].(id := Some(freshIds[i]))
    ensures items != [] ==>
              (r.0.Rejected? <==> exists i :: 0 <= i < |items| && !Validation.BackendValid(items[i]))
    ensures r.0.Rejected? ==> r.1 == [] && r.0.failures == Failures(items)
    ensures !r.0.CreatedOne?
  {
    if items == [] then (NoItemsProvided, [])
    else
      var inserted := InsertTriviaItems(items, freshIds);
      if inserted.0.errors.Some? then (Rejected(inserted.0.errors.value), inserted.1)
      else (CreatedBatch("/trivia/batch", inserted.0.insertedIds.value), inserted.1)
  }
}
