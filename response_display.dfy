/**
 * Flattening of a QuestionnaireResponse against its Questionnaire for read-only display
 * (QuestionnaireResponseDisplayViewModel.kt). Both trees follow the FHIR R4 nesting: a
 * group's children are its `item`s, a question's children hang under its first answer.
 * Each level pairs response items with questionnaire items by `linkId`, moving one
 * forward-only cursor over the questionnaire items, and appends the pairs in pre-order
 * to one shared list.
 */
module ResponseDisplay {
  import opened Wrappers

  /** Questionnaire.QuestionnaireItemType. */
  datatype ItemType =
    | Group | Display | Boolean | Decimal | Integer | Date | DateTime | Time | String | Text
    | Url | Choice | OpenChoice | Attachment | Reference | Quantity | Question | Null

  /** Questionnaire.QuestionnaireItemComponent: `type` may be unset. */
  datatype QuestionnaireItem = QuestionnaireItem(linkId: string, itemType: Option<ItemType>, item: seq<QuestionnaireItem>)

  /** QuestionnaireResponse.QuestionnaireResponseItemComponent. */
  datatype ResponseItem = ResponseItem(linkId: string, item: seq<ResponseItem>, answer: seq<ResponseAnswer>)

  /** QuestionnaireResponse.QuestionnaireResponseItemAnswerComponent: only its nested items matter here. */
  datatype ResponseAnswer = ResponseAnswer(item: seq<ResponseItem>)

  /** QuestionnaireResponseItemViewItem: a questionnaire item with the response item shown for it. */
  datatype ViewItem = ViewItem(questionnaireItem: QuestionnaireItem, responseItem: ResponseItem)

  datatype FlattenError =
    | NoSuchElement  // the questionnaire iterator ran out before a matching linkId
    | MissingType    // checkNotNull: "Questionnaire item must have type"

  /** The pairs appended to the list, and the exception that ended the walk, if any. */
  datatype Run = Run(emitted: seq<ViewItem>, failure: Option<FlattenError>)

  /** Items of these types get a row of their own. */
  predicate Answerable(t: ItemType) {
    t != Display && t != Null && t != Group
  }

  /** Every pair matches by linkId and shows an item that has a type and gets a row. */
  ghost predicate WellFormedRows(rows: seq<ViewItem>) {
    forall v :: v in rows ==>
      && v.questionnaireItem.linkId == v.responseItem.linkId
      && v.questionnaireItem.itemType.Some?
      && Answerable(v.questionnaireItem.itemType.value)
  }

  /** Runs `a`, then `b` unless `a` raised. */
  function Then(a: Run, b: Run): Run {
    if a.failure.Some? then a else Run(a.emitted + b.emitted, b.failure)
  }

  /**
   * Where the do-while over the questionnaire iterator stops for `linkId`: the index of
   * the first remaining item with that linkId, or `None` when the iterator runs out.
   */
  function SkipTo(qs: seq<QuestionnaireItem>, linkId: string): (r: Option<nat>)
    ensures r.Some? ==> r.value < |qs| && qs[r.value].linkId == linkId
    ensures r.Some? ==> forall j :: 0 <= j < r.value ==> qs[j].linkId != linkId
    ensures r.None? ==> forall j :: 0 <= j < |qs| ==> qs[j].linkId != linkId
  {
    if qs == [] then None
    else if qs[0].linkId == linkId then Some(0)
    else match SkipTo(qs[1..], linkId)
      case None => None
      case Some(k) => Some(k + 1)
  }

  /** getQuestionnaireResponseItemViewItemList, as a value: one level of items. */
  function FlattenList(qs: seq<QuestionnaireItem>, rs: seq<ResponseItem>): Run
    decreases rs
  {
    if rs == [] then Run([], None)
    else match SkipTo(qs, rs[0].linkId)
      case None => Run([], Some(NoSuchElement))
      case Some(k) => Then(FlattenItem(qs[k], rs[0]), FlattenList(qs[k + 1..], rs[1..]))
  }

  /** getQuestionnaireResponseItemViewItem, as a value: one item and what it nests. */
  function FlattenItem(q: QuestionnaireItem, r: ResponseItem): (res: Run)
    ensures q.itemType.None? ==> res == Run([], Some(MissingType))
    ensures q.itemType.Some? && Answerable(q.itemType.value) ==>
              |res.emitted| > 0 && res.emitted[0] == ViewItem(q, r)
    ensures q.itemType.Some? && Answerable(q.itemType.value) && r.answer == [] ==>
              res == Run([ViewItem(q, r)], None)
    decreases r
  {
    match q.itemType
    case None => Run([], Some(MissingType))
    case Some(t) =>
      if t == Display || t == Null then Run([], None)
      else if t == Group then FlattenList(q.item, r.item)
      else
        Then(Run([ViewItem(q, r)], None),
             if r.answer == [] then Run([], None) else FlattenList(q.item, r.answer[0].item))
  }

  /** Every row a level produces pairs items with equal linkIds, each typed and answerable. */
  lemma {:induction false} FlattenListRows(qs: seq<QuestionnaireItem>, rs: seq<ResponseItem>)
    ensures WellFormedRows(FlattenList(qs, rs).emitted)
    decreases rs
  {
    if rs != [] {
      match SkipTo(qs, rs[0].linkId)
      case None =>
      case Some(k) =>
        FlattenItemRows(qs[k], rs[0]);
        FlattenListRows(qs[k + 1..], rs[1..]);
    }
  }

  /** The same for one pair whose linkIds agree, as the level walk guarantees. */
  lemma {:induction false} FlattenItemRows(q: QuestionnaireItem, r: ResponseItem)
    requires q.linkId == r.linkId
    ensures WellFormedRows(FlattenItem(q, r).emitted)
    decreases r
  {
    match q.itemType
    case None =>
    case Some(t) =>
      if t == Group {
        FlattenListRows(q.item, r.item);
      } else if t != Display && t != Null && r.answer != [] {
        FlattenListRows(q.item, r.answer[0].item);
      }
  }

  // ----------------------------------------------------------------------------------
  // The mutable list and the two walking methods

  /** The `MutableList<QuestionnaireResponseItemViewItem>` the walk appends to. */
  class ViewItemList {
    var items: seq<ViewItem>

    constructor ()
      ensures items == []
    {
      items := [];
    }

    method Add(v: ViewItem)
      modifies this
      ensures items == old(items) + [v]
    {
      items := items + [v];
    }
  }

  /**
   * Walks one level: for each response item, advances the questionnaire cursor to the
   * item with its linkId and walks that pair. The list only grows: what it held before
   * is still its prefix, also when an exception ends the walk.
   */
  method CollectList(qs: seq<QuestionnaireItem>, rs: seq<ResponseItem>, items: ViewItemList)
    returns (failure: Option<FlattenError>)
    modifies items
    ensures items.items == old(items.items) + FlattenList(qs, rs).emitted
    ensures failure == FlattenList(qs, rs).failure
    decreases rs
  {
    // The walk is tied to FlattenList through the lemmas below alone; unfolding the
    // definitions here only gives the solver more to search.
    hide FlattenList, FlattenItem, SkipTo;
    ghost var start := items.items;
    ghost var done: seq<ViewItem> := [];
    var qi, ri := 0, 0;
    while ri < |rs|
      invariant 0 <= qi <= |qs| && 0 <= ri <= |rs|
      invariant items.items == start + done
      invariant FlattenList(qs, rs) == Then(Run(done, None), FlattenList(qs[qi..], rs[ri..]))
      decreases |rs| - ri
    {
      var responseItem := rs[ri];
      ghost var from := qi;
      assert FlattenList(qs, rs) == Then(Run(done, None), FlattenList(qs[from..], rs[ri..]));
      var next := AdvancePast(qs, qi, responseItem.linkId);
      if next.None? {
        // next() on an exhausted iterator
        LevelExhausted(qs, rs, from, ri);
        assert done + [] == done;
        failure := Some(NoSuchElement);
        return;
      }
      qi := next.value;
      var questionnaireItem := qs[qi - 1];
      failure := CollectItem(questionnaireItem, responseItem, items);
      ghost var pair := FlattenItem(questionnaireItem, responseItem);
      LevelStep(qs, rs, done, from, ri, qi - 1, pair);
      done := done + pair.emitted;
      assert items.items == start + done;
      if failure.Some? {
        return;
      }
      ri := ri + 1;
    }
    LevelEnd(qs, rs, qi, done);
    failure := None;
  }

  /**
   * The do-while that calls next() on the questionnaire iterator (at `from`) until an
   * item with `linkId` comes up: the position just after that item, or `None` when the
   * iterator runs out first.
   */
  method AdvancePast(qs: seq<QuestionnaireItem>, from: nat, linkId: string) returns (next: Option<nat>)
    requires from <= |qs|
    ensures next.Some? ==> from < next.value <= |qs| && qs[next.value - 1].linkId == linkId
    ensures next.Some? ==> forall j :: from <= j < next.value - 1 ==> qs[j].linkId != linkId
    ensures next.None? ==> forall j :: from <= j < |qs| ==> qs[j].linkId != linkId
  {
    var qi := from;
    var found := false;
    while !found
      invariant from <= qi <= |qs|
      invariant found ==> from < qi && qs[qi - 1].linkId == linkId
      invariant forall j :: from <= j < (if found then qi - 1 else qi) ==> qs[j].linkId != linkId
      decreases |qs| - qi, if found then 0 else 1
    {
      if qi == |qs| {
        return None;
      }
      found := qs[qi].linkId == linkId;
      qi := qi + 1;
    }
    next := Some(qi);
  }

  /** A level whose response items are all walked: nothing more is appended or raised. */
  lemma LevelEnd(qs: seq<QuestionnaireItem>, rs: seq<ResponseItem>, from: nat, done: seq<ViewItem>)
    requires from <= |qs|
    ensures Then(Run(done, None), FlattenList(qs[from..], rs[|rs|..])) == Run(done, None)
  {
    assert rs[|rs|..] == [] && done + [] == done;
  }

  /** The walk of a level, when no remaining questionnaire item has the next linkId. */
  lemma LevelExhausted(qs: seq<QuestionnaireItem>, rs: seq<ResponseItem>, from: nat, ri: nat)
    requires from <= |qs| && ri < |rs|
    requires forall j :: from <= j < |qs| ==> qs[j].linkId != rs[ri].linkId
    ensures FlattenList(qs[from..], rs[ri..]) == Run([], Some(NoSuchElement))
  {
    assert rs[ri..][0] == rs[ri];
    assert forall j :: 0 <= j < |qs[from..]| ==> qs[from..][j] == qs[from + j];
  }

  /** The cursor stops at the first item with the linkId. */
  lemma SkipToFirst(qs: seq<QuestionnaireItem>, linkId: string, m: nat)
    requires m < |qs| && qs[m].linkId == linkId
    requires forall j :: 0 <= j < m ==> qs[j].linkId != linkId
    ensures SkipTo(qs, linkId) == Some(m)
  {
  }

  /** The walk of a level, when the cursor stops at `m`: that pair, then the rest after `m`. */
  lemma LevelMatched(qs: seq<QuestionnaireItem>, rs: seq<ResponseItem>, from: nat, ri: nat, m: nat)
    requires from <= m < |qs| && ri < |rs|
    requires qs[m].linkId == rs[ri].linkId
    requires forall j :: from <= j < m ==> qs[j].linkId != rs[ri].linkId
    ensures FlattenList(qs[from..], rs[ri..]) ==
            Then(FlattenItem(qs[m], rs[ri]), FlattenList(qs[m + 1..], rs[ri + 1..]))
  {
    assert rs[ri..][0] == rs[ri] && rs[ri..][1..] == rs[ri + 1..];
    SkipToFirst(qs[from..], rs[ri].linkId, m - from);
    assert qs[from..][m - from + 1..] == qs[m + 1..];
  }

  /** One turn of the level walk, matched at `m`: what the whole level then amounts to. */
  lemma LevelStep(qs: seq<QuestionnaireItem>, rs: seq<ResponseItem>, done: seq<ViewItem>, from: nat, ri: nat, m: nat, pair: Run)
    requires from <= m < |qs| && ri < |rs|
    requires qs[m].linkId == rs[ri].linkId
    requires forall j :: from <= j < m ==> qs[j].linkId != rs[ri].linkId
    requires FlattenList(qs, rs) == Then(Run(done, None), FlattenList(qs[from..], rs[ri..]))
    requires pair == FlattenItem(qs[m], rs[ri])
    ensures pair.failure.Some? ==> FlattenList(qs, rs) == Run(done + pair.emitted, pair.failure)
    ensures pair.failure.None? ==>
              FlattenList(qs, rs) == Then(Run(done + pair.emitted, None), FlattenList(qs[m + 1..], rs[ri + 1..]))
  {
    LevelMatched(qs, rs, from, ri, m);
    ThenAfter(done, pair, FlattenList(qs[m + 1..], rs[ri + 1..]));
  }

  /** What has been appended, followed by one pair's run and the rest of the level. */
  lemma ThenAfter(done: seq<ViewItem>, a: Run, b: Run)
    ensures a.failure.Some? ==> Then(Run(done, None), Then(a, b)) == Run(done + a.emitted, a.failure)
    ensures a.failure.None? ==>
              Then(Run(done, None), Then(a, b)) == Then(Run(done + a.emitted, None), b)
  {
    if a.failure.None? {
      assert done + (a.emitted + b.emitted) == done + a.emitted + b.emitted;
    }
  }

  /**
   * Walks one pair: an item without a type raises; display and null items add nothing;
   * a group walks its children; any other item adds its own row and then walks the
   * items nested in its first answer.
   */
  method CollectItem(q: QuestionnaireItem, r: ResponseItem, items: ViewItemList)
    returns (failure: Option<FlattenError>)
    modifies items
    ensures items.items == old(items.items) + FlattenItem(q, r).emitted
    ensures failure == FlattenItem(q, r).failure
    decreases r
  {
    match q.itemType
    case None =>
      failure := Some(MissingType);
    case Some(t) =>
      if t == Display || t == Null {
        failure := None;
      } else if t == Group {
        failure := CollectList(q.item, r.item, items);
      } else {
        items.Add(ViewItem(q, r));
        if r.answer != [] {
          failure := CollectList(q.item, r.answer[0].item, items);
        } else {
          failure := None;
        }
      }
  }

  /**
   * The list the display shows for a questionnaire and its response, or the exception
   * that stops it.
   */
  method ViewItems(qs: seq<QuestionnaireItem>, rs: seq<ResponseItem>)
    returns (result: Result<seq<ViewItem>, FlattenError>)
    ensures result.Ok? <==> FlattenList(qs, rs).failure.None?
    ensures result.Ok? ==> result.value == FlattenList(qs, rs).emitted && WellFormedRows(result.value)
    ensures result.Err? ==> result.error == FlattenList(qs, rs).failure.value
  {
    var items := new ViewItemList();
    var failure := CollectList(qs, rs, items);
    FlattenListRows(qs, rs);
    if failure.None? {
      result := Ok(items.items);
    } else {
      result := Err(failure.value);
    }
  }

  // ----------------------------------------------------------------------------------
  // Properties of the walk

  function LinkIds<T>(items: seq<T>, id: T -> string): seq<string> {
    seq(|items|, i requires 0 <= i < |items| => id(items[i]))
  }

  function ResponseLinkIds(rs: seq<ResponseItem>): seq<string> {
    LinkIds(rs, (r: ResponseItem) => r.linkId)
  }

  function QuestionnaireLinkIds(qs: seq<QuestionnaireItem>): seq<string> {
    LinkIds(qs, (q: QuestionnaireItem) => q.linkId)
  }

  /** `xs` can be read off `ys` in order, skipping elements of `ys`. */
  ghost predicate IsSubsequence(xs: seq<string>, ys: seq<string>)
    decreases |ys|
  {
    xs == [] || (ys != [] && ((xs[0] == ys[0] && IsSubsequence(xs[1..], ys[1..])) || IsSubsequence(xs, ys[1..])))
  }

  lemma {:induction false} SubsequenceAfterSkip(x: string, xs: seq<string>, ys: seq<string>, k: nat)
    requires k < |ys| && ys[k] == x && IsSubsequence(xs, ys[k + 1..])
    ensures IsSubsequence([x] + xs, ys)
    decreases k
  {
    if k > 0 {
      assert ys[1..][k - 1] == x && ys[1..][k..] == ys[k + 1..];
      SubsequenceAfterSkip(x, xs, ys[1..], k - 1);
    } else {
      assert ([x] + xs)[1..] == xs;
    }
  }

  /**
   * The cursor only moves forward and never skips a response item: when a level is
   * walked without an exception, its response linkIds occur among its questionnaire
   * linkIds in the same order. Put the other way, a response item whose linkId is not
   * among the remaining questionnaire items makes the walk raise.
   */
  lemma {:induction false} CompletedLevelIsOrdered(qs: seq<QuestionnaireItem>, rs: seq<ResponseItem>)
    requires FlattenList(qs, rs).failure.None?
    ensures IsSubsequence(ResponseLinkIds(rs), QuestionnaireLinkIds(qs))
    decreases rs
  {
    if rs != [] {
      var k := SkipTo(qs, rs[0].linkId).value;
      CompletedLevelIsOrdered(qs[k + 1..], rs[1..]);
      var ids := QuestionnaireLinkIds(qs);
      assert ids[k + 1..] == QuestionnaireLinkIds(qs[k + 1..]);
      assert ResponseLinkIds(rs) == [rs[0].linkId] + ResponseLinkIds(rs[1..]);
      SubsequenceAfterSkip(rs[0].linkId, ResponseLinkIds(rs[1..]), ids, k);
    }
  }

  /** Every questionnaire item of the level, and every item nested under one, has a type. */
  ghost predicate AllTyped(qs: seq<QuestionnaireItem>)
    decreases qs
  {
    forall i :: 0 <= i < |qs| ==> qs[i].itemType.Some? && AllTyped(qs[i].item)
  }

  /** "Questionnaire item must have type" only comes from an untyped questionnaire item. */
  lemma {:induction false} TypedLevelNeverMissingType(qs: seq<QuestionnaireItem>, rs: seq<ResponseItem>)
    requires AllTyped(qs)
    ensures FlattenList(qs, rs).failure != Some(MissingType)
    decreases rs
  {
    if rs != [] {
      match SkipTo(qs, rs[0].linkId)
      case None =>
      case Some(k) =>
        TypedItemNeverMissingType(qs[k], rs[0]);
        TypedLevelNeverMissingType(qs[k + 1..], rs[1..]);
    }
  }

  lemma {:induction false} TypedItemNeverMissingType(q: QuestionnaireItem, r: ResponseItem)
    requires q.itemType.Some? && AllTyped(q.item)
    ensures FlattenItem(q, r).failure != Some(MissingType)
    decreases r
  {
    var t := q.itemType.value;
    if t == Group {
      TypedLevelNeverMissingType(q.item, r.item);
    } else if t != Display && t != Null && r.answer != [] {
      TypedLevelNeverMissingType(q.item, r.answer[0].item);
    }
  }

  /**
   * A response item whose linkId no questionnaire item of its level has makes the walk
   * raise: it is never skipped.
   */
  lemma {:induction false} AbsentLinkIdRaises(qs: seq<QuestionnaireItem>, rs: seq<ResponseItem>, i: nat)
    requires i < |rs|
    requires forall j :: 0 <= j < |qs| ==> qs[j].linkId != rs[i].linkId
    ensures FlattenList(qs, rs).failure.Some?
    decreases rs
  {
    if i > 0 {
      match SkipTo(qs, rs[0].linkId)
      case None =>
      case Some(k) =>
        assert rs[1..][i - 1] == rs[i];
        AbsentLinkIdRaises(qs[k + 1..], rs[1..], i - 1);
    }
  }

  /**
   * When, in addition, every questionnaire item is typed, what is raised is
   * NoSuchElement, from the exhausted iterator.
   */
  lemma AbsentLinkIdRaisesNoSuchElement(qs: seq<QuestionnaireItem>, rs: seq<ResponseItem>, i: nat)
    requires i < |rs| && AllTyped(qs)
    requires forall j :: 0 <= j < |qs| ==> qs[j].linkId != rs[i].linkId
    ensures FlattenList(qs, rs).failure == Some(NoSuchElement)
  {
    AbsentLinkIdRaises(qs, rs, i);
    TypedLevelNeverMissingType(qs, rs);
    var failure := FlattenList(qs, rs).failure;
    assert failure.Some? && failure.value != MissingType;
  }

  /**
   * Only the first answer's nested items are walked: answers after the first change
   * nothing but the response item shown in the item's own row.
   */
  lemma LaterAnswersIgnored(q: QuestionnaireItem, r: ResponseItem, more: seq<ResponseAnswer>)
    requires q.itemType.Some? && Answerable(q.itemType.value) && r.answer != []
    ensures var r' := r.(answer := r.answer + more);
      && FlattenItem(q, r').failure == FlattenItem(q, r).failure
      && FlattenItem(q, r').emitted[1..] == FlattenItem(q, r).emitted[1..]
  {
    assert (r.answer + more)[0] == r.answer[0];
  }
}
