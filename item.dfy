/**
 * `CommentItem`: a comment's card, its reply button and reply form, and its replies,
 * newest first, each rendered as a `CommentItem` of its own.
 *
 * `new Date(s).getTime()` is the `time` parameter, a total map from date strings to
 * milliseconds. Which cards have their reply form open is the `open` parameter,
 * keyed by comment id as React keys the reply items. `H` is the type of the
 * `onReplyAdded` callback, passed down unchanged.
 */
module Item {
  import opened Wrappers
  import opened Types
  import StableSort

  /** The reply form under a card: a `CommentForm` answering the card's comment. */
  datatype ReplyForm<H> = ReplyForm(parentId: Option<int>, onCommentAdded: H)

  /** A rendered comment card and the cards of its replies. */
  datatype Card<H> = Card(
    id: int,
    username: string,
    createdAt: string,
    content: string,
    replyForm: Option<ReplyForm<H>>,
    replies: seq<Card<H>>)

  /** The reply comparator: `a` goes after `b` when `b` is the more recent. */
  function NewestFirst(time: string -> int): (after: (Comment, Comment) -> bool) {
    (a: Comment, b: Comment) => time(b.createdAt) - time(a.createdAt) > 0
  }

  /** The same comparator on rendered cards. */
  function CardsNewestFirst<H>(time: string -> int): (after: (Card<H>, Card<H>) -> bool) {
    (a: Card<H>, b: Card<H>) => time(b.createdAt) - time(a.createdAt) > 0
  }

  lemma NewestFirstIsStrictWeakOrder(time: string -> int)
    ensures StableSort.StrictWeakOrder(NewestFirst(time))
  {
  }

  /** The replies a card shows: none when `replies` is absent or empty. */
  function ShownReplies(c: Comment): (r: seq<Comment>)
    ensures c.replies.Replies? ==> r == c.replies.list
    ensures c.replies.NoReplies? ==> r == []
  {
    if c.replies.Replies? && |c.replies.list| > 0 then c.replies.list else []
  }

  /** What `CommentItem` renders for `c`, its replies sorted newest first at every depth. */
  function Render<H>(c: Comment, onReplyAdded: H, time: string -> int, open: int -> bool): (r: Card<H>)
    ensures r.id == c.id && r.username == c.username && r.createdAt == c.createdAt && r.content == c.content
    ensures r.replyForm.Some? <==> open(c.id)
    ensures |r.replies| == |ShownReplies(c)|
    decreases c
  {
    var sorted := StableSort.Sort(ShownReplies(c), NewestFirst(time));
    assert forall i :: 0 <= i < |sorted| ==> sorted[i] in c.replies.list by {
      forall i | 0 <= i < |sorted|
        ensures sorted[i] in c.replies.list
      {
        SortedReplyIn(c, time, i);
      }
    }
    Card(c.id, c.username, c.createdAt, c.content,
         if open(c.id) then Some(ReplyForm(Some(c.id), onReplyAdded)) else None,
         seq(|sorted|, i requires 0 <= i < |sorted| => Render(sorted[i], onReplyAdded, time, open)))
  }

  /** Sorting the replies shown takes each of them from the comment's replies. */
  lemma SortedReplyIn(c: Comment, time: string -> int, i: int)
    requires 0 <= i < |StableSort.Sort(ShownReplies(c), NewestFirst(time))|
    ensures c.replies.Replies? && StableSort.Sort(ShownReplies(c), NewestFirst(time))[i] in c.replies.list
  {
    var sorted := StableSort.Sort(ShownReplies(c), NewestFirst(time));
    StableSort.SortPermutation(ShownReplies(c), NewestFirst(time));
    assert sorted[i] in multiset(sorted);
  }

  /** The cards of `c`'s replies are the rendered replies, in sorted order. */
  lemma RenderReplies<H>(c: Comment, onReplyAdded: H, time: string -> int, open: int -> bool)
    ensures Render(c, onReplyAdded, time, open).replies
         == StableSort.Map((x: Comment) => Render(x, onReplyAdded, time, open), StableSort.Sort(ShownReplies(c), NewestFirst(time)))
  {
  }

  /** Every list of replies, at every depth, runs from the newest to the oldest. */
  ghost predicate NewestFirstEverywhere<H>(card: Card<H>, time: string -> int)
    decreases card
  {
    && (forall i, j :: 0 <= i < j < |card.replies| ==> time(card.replies[i].createdAt) >= time(card.replies[j].createdAt))
    && (forall i :: 0 <= i < |card.replies| ==> NewestFirstEverywhere(card.replies[i], time))
  }

  /** The replies under one card run from the newest to the oldest. */
  lemma RepliesNewestFirst<H>(c: Comment, onReplyAdded: H, time: string -> int, open: int -> bool)
    ensures var card := Render(c, onReplyAdded, time, open);
            forall i, j :: 0 <= i < j < |card.replies| ==> time(card.replies[i].createdAt) >= time(card.replies[j].createdAt)
  {
    var card := Render(c, onReplyAdded, time, open);
    var sorted := StableSort.Sort(ShownReplies(c), NewestFirst(time));
    NewestFirstIsStrictWeakOrder(time);
    StableSort.SortSorted(ShownReplies(c), NewestFirst(time));
    RenderReplies(c, onReplyAdded, time, open);
    forall i, j | 0 <= i < j < |card.replies|
      ensures time(card.replies[i].createdAt) >= time(card.replies[j].createdAt)
    {
      assert !NewestFirst(time)(sorted[i], sorted[j]);
    }
  }

  /** A reply card is the rendering of one of the comment's replies. */
  lemma ReplyCard<H>(c: Comment, onReplyAdded: H, time: string -> int, open: int -> bool, i: nat)
    requires i < |Render(c, onReplyAdded, time, open).replies|
    ensures c.replies.Replies?
    ensures var x := StableSort.Sort(ShownReplies(c), NewestFirst(time))[i];
            x in c.replies.list && Render(c, onReplyAdded, time, open).replies[i] == Render(x, onReplyAdded, time, open)
  {
    StableSort.SortPermutation(ShownReplies(c), NewestFirst(time));
    RenderReplies(c, onReplyAdded, time, open);
    assert StableSort.Sort(ShownReplies(c), NewestFirst(time))[i] in multiset(ShownReplies(c));
  }

  lemma {:induction false} RenderNewestFirst<H>(c: Comment, onReplyAdded: H, time: string -> int, open: int -> bool)
    ensures NewestFirstEverywhere(Render(c, onReplyAdded, time, open), time)
    decreases c
  {
    var card := Render(c, onReplyAdded, time, open);
    RepliesNewestFirst(c, onReplyAdded, time, open);
    forall i | 0 <= i < |card.replies|
      ensures NewestFirstEverywhere(card.replies[i], time)
    {
      ReplyCard(c, onReplyAdded, time, open, i);
      RenderNewestFirst(StableSort.Sort(ShownReplies(c), NewestFirst(time))[i], onReplyAdded, time, open);
    }
  }

  /**
   * The replies shown are the comment's replies, each rendered once: rendering and
   * then sorting the cards newest first gives the same list, so it is a permutation
   * of the rendered replies.
   */
  lemma RenderedRepliesArePermutation<H>(c: Comment, onReplyAdded: H, time: string -> int, open: int -> bool)
    ensures var render := (x: Comment) => Render(x, onReplyAdded, time, open);
            && Render(c, onReplyAdded, time, open).replies
               == StableSort.Sort(StableSort.Map(render, ShownReplies(c)), CardsNewestFirst(time))
            && multiset(Render(c, onReplyAdded, time, open).replies) == multiset(StableSort.Map(render, ShownReplies(c)))
  {
    var render := (x: Comment) => Render(x, onReplyAdded, time, open);
    RenderReplies(c, onReplyAdded, time, open);
    StableSort.SortMap(render, ShownReplies(c), NewestFirst(time), CardsNewestFirst(time));
    StableSort.SortPermutation(StableSort.Map(render, ShownReplies(c)), CardsNewestFirst<H>(time));
  }

  /** Replies with the same time keep the order they have in `replies`. */
  lemma EqualTimesKeepOrder<H>(c: Comment, onReplyAdded: H, time: string -> int, open: int -> bool)
    ensures StableSort.IsStableSortOf(StableSort.Sort(ShownReplies(c), NewestFirst(time)), ShownReplies(c), NewestFirst(time))
  {
    NewestFirstIsStrictWeakOrder(time);
    StableSort.SortIsStable(ShownReplies(c), NewestFirst(time));
  }

  /** Every open reply form, at every depth, answers its own card's comment and reports to the same callback. */
  ghost predicate FormsAnswerTheirCard<H>(card: Card<H>, onReplyAdded: H)
    decreases card
  {
    && (card.replyForm.Some? ==> card.replyForm.value == ReplyForm(Some(card.id), onReplyAdded))
    && (forall i :: 0 <= i < |card.replies| ==> FormsAnswerTheirCard(card.replies[i], onReplyAdded))
  }

  lemma {:induction false} RenderFormsAnswerTheirCard<H>(c: Comment, onReplyAdded: H, time: string -> int, open: int -> bool)
    ensures FormsAnswerTheirCard(Render(c, onReplyAdded, time, open), onReplyAdded)
    decreases c
  {
    var card := Render(c, onReplyAdded, time, open);
    forall i | 0 <= i < |card.replies|
      ensures FormsAnswerTheirCard(card.replies[i], onReplyAdded)
    {
      ReplyCard(c, onReplyAdded, time, open, i);
      RenderFormsAnswerTheirCard(StableSort.Sort(ShownReplies(c), NewestFirst(time))[i], onReplyAdded, time, open);
    }
  }

  /** The reply button's state: whether the reply form is shown. */
  class CommentItem<H> {
    const comment: Comment
    const onReplyAdded: H
    var showReplyForm: bool

    constructor(comment: Comment, onReplyAdded: H)
      ensures this.comment == comment && this.onReplyAdded == onReplyAdded
      ensures !showReplyForm
    {
      this.comment := comment;
      this.onReplyAdded := onReplyAdded;
      showReplyForm := false;
    }

    /** `handleReplyClick`: each click shows or hides the reply form. */
    method HandleReplyClick()
      modifies this
      ensures showReplyForm == !old(showReplyForm)
    {
      showReplyForm := !showReplyForm;
    }

    /** The card this item renders, its own form shown as its state says and its replies' as `open` says. */
    function View(time: string -> int, open: int -> bool): (r: Card<H>)
      reads this
      ensures r.replyForm.Some? <==> showReplyForm
      ensures showReplyForm ==> r.replyForm.value == ReplyForm(Some(comment.id), onReplyAdded)
    {
      var c := comment;
      var state := showReplyForm;
      Render(c, onReplyAdded, time, (id: int) => if id == c.id then state else open(id))
    }
  }
}
