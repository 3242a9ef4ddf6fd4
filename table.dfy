/**
 * `CommentTable`: the top-level comments, sorted by the column the user clicked,
 * ascending or descending, each row a `CommentItem`.
 *
 * The columns compare their raw strings with JavaScript's `<` and `>`, so the date
 * column orders the `createdAt` texts, not the instants they denote.
 */
module Table {
  import opened Types
  import Strings
  import StableSort
  import Item

  datatype SortField = Username | Email | CreatedAt
  datatype SortOrder = Asc | Desc

  /** `a[sortField]`. */
  function Key(c: Comment, field: SortField): string {
    match field
    case Username => c.username
    case Email => c.email
    case CreatedAt => c.createdAt
  }

  /**
   * The effect's comparator: 1 when `a`'s key is greater, then -1 when it is smaller,
   * otherwise 0; negated for descending order.
   */
  function Compare(a: Comment, b: Comment, field: SortField, order: SortOrder): (r: int)
    ensures -1 <= r <= 1
    ensures r == 0 <==> Key(a, field) == Key(b, field)
    ensures order == Asc ==> (r > 0 <==> Strings.Less(Key(b, field), Key(a, field)))
    ensures order == Desc ==> (r > 0 <==> Strings.Less(Key(a, field), Key(b, field)))
  {
    var x, y := Key(a, field), Key(b, field);
    Strings.Trichotomy(x, y);
    var greater := if Strings.Less(y, x) then 1 else 0;
    var comparison := if Strings.Less(x, y) then -1 else greater;
    if order == Asc then comparison else -comparison
  }

  /** `a` is placed after `b`: the comparator is positive. */
  function After(field: SortField, order: SortOrder): (after: (Comment, Comment) -> bool) {
    (a: Comment, b: Comment) => Compare(a, b, field, order) > 0
  }

  lemma AfterIsStrictWeakOrder(field: SortField, order: SortOrder)
    ensures StableSort.StrictWeakOrder(After(field, order))
  {
    var after := After(field, order);
    forall a, b | after(a, b)
      ensures !after(b, a)
    {
      if order == Asc {
        Strings.LessAsymmetric(Key(b, field), Key(a, field));
      } else {
        Strings.LessAsymmetric(Key(a, field), Key(b, field));
      }
    }
    forall a, b, c | !after(a, b) && !after(b, c)
      ensures !after(a, c)
    {
      if order == Asc {
        Strings.NotLessTransitive(Key(a, field), Key(b, field), Key(c, field));
      } else {
        Strings.NotLessTransitive(Key(c, field), Key(b, field), Key(a, field));
      }
    }
  }

  /**
   * The effect's `[...comments].sort(...)`: a copy of the list, sorted in place. The
   * result is a permutation of the input, ordered by the column in the chosen
   * direction, and comments with equal keys keep their order.
   */
  method SortComments(comments: seq<Comment>, field: SortField, order: SortOrder) returns (sorted: seq<Comment>)
    ensures sorted == StableSort.Sort(comments, After(field, order))
    ensures multiset(sorted) == multiset(comments)
    ensures order == Asc ==>
              forall i, j :: 0 <= i < j < |sorted| ==> !Strings.Less(Key(sorted[j], field), Key(sorted[i], field))
    ensures order == Desc ==>
              forall i, j :: 0 <= i < j < |sorted| ==> !Strings.Less(Key(sorted[i], field), Key(sorted[j], field))
    ensures StableSort.IsStableSortOf(sorted, comments, After(field, order))
  {
    var a := new Comment[|comments|](i requires 0 <= i < |comments| => comments[i]);
    assert a[..] == comments;
    StableSort.SortInPlace(a, After(field, order));
    sorted := a[..];
    StableSort.SortPermutation(comments, After(field, order));
    AfterIsStrictWeakOrder(field, order);
    StableSort.SortSorted(comments, After(field, order));
    StableSort.SortIsStable(comments, After(field, order));
    forall i, j | 0 <= i < j < |sorted|
      ensures order == Asc ==> !Strings.Less(Key(sorted[j], field), Key(sorted[i], field))
      ensures order == Desc ==> !Strings.Less(Key(sorted[i], field), Key(sorted[j], field))
    {
      assert !After(field, order)(sorted[i], sorted[j]);
    }
  }

  /** The order after a click on `clicked`: a second click on the ascending column makes it descending. */
  function NextOrder(field: SortField, order: SortOrder, clicked: SortField): (r: SortOrder)
    ensures r == Desc <==> clicked == field && order == Asc
  {
    if field == clicked && order == Asc then Desc else Asc
  }

  /** Clicking the same column over and over alternates the two orders. */
  lemma {:induction false} RepeatedClicksAlternate(field: SortField, order: SortOrder, n: nat)
    ensures Clicks(field, order, n) == (if n % 2 == 0 then order else Flip(order))
  {
    if n > 0 {
      RepeatedClicksAlternate(field, order, n - 1);
    }
  }

  function Flip(order: SortOrder): SortOrder {
    if order == Asc then Desc else Asc
  }

  /** The order after `n` clicks on the sorted column. */
  function Clicks(field: SortField, order: SortOrder, n: nat): SortOrder {
    if n == 0 then order else NextOrder(field, Clicks(field, order, n - 1), field)
  }

  class CommentTable<H> {
    var comments: seq<Comment>
    const onCommentAdded: H
    var sortField: SortField
    var sortOrder: SortOrder
    var sortedComments: seq<Comment>

    /** The first render: sorted by date, ascending, and no rows until the effect has run. */
    constructor(comments: seq<Comment>, onCommentAdded: H)
      ensures this.comments == comments && this.onCommentAdded == onCommentAdded
      ensures sortField == CreatedAt && sortOrder == Asc && sortedComments == []
    {
      this.comments := comments;
      this.onCommentAdded := onCommentAdded;
      sortField := CreatedAt;
      sortOrder := Asc;
      sortedComments := [];
    }

    /** The effect, run whenever `comments`, the column or the order has changed. */
    method Refresh()
      modifies this
      ensures sortedComments == StableSort.Sort(comments, After(sortField, sortOrder))
      ensures comments == old(comments) && sortField == old(sortField) && sortOrder == old(sortOrder)
    {
      sortedComments := SortComments(comments, sortField, sortOrder);
    }

    /** New `comments` from the parent, and the effect they trigger. */
    method ReceiveComments(newComments: seq<Comment>)
      modifies this
      ensures comments == newComments && sortField == old(sortField) && sortOrder == old(sortOrder)
      ensures sortedComments == StableSort.Sort(newComments, After(sortField, sortOrder))
    {
      comments := newComments;
      Refresh();
    }

    /** `handleSort`, and the effect the changed column or order triggers. */
    method HandleSort(field: SortField)
      modifies this
      ensures sortField == field
      ensures sortOrder == NextOrder(old(sortField), old(sortOrder), field)
      ensures comments == old(comments)
      ensures sortedComments == StableSort.Sort(comments, After(sortField, sortOrder))
    {
      var newSortOrder := if sortField == field && sortOrder == Asc then Desc else Asc;
      sortField := field;
      sortOrder := newSortOrder;
      Refresh();
    }

    /** The body rows: one `CommentItem` per sorted comment, each reporting replies to `onCommentAdded`. */
    function Rows(time: string -> int, open: int -> bool): (r: seq<Item.Card<H>>)
      reads this
      ensures |r| == |sortedComments|
      ensures forall i :: 0 <= i < |r| ==> r[i] == Item.Render(sortedComments[i], onCommentAdded, time, open)
    {
      StableSort.Map((c: Comment) => Item.Render(c, onCommentAdded, time, open), sortedComments)
    }
  }
}
