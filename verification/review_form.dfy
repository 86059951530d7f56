/**
 * The review form shown after a session: a one-to-five star rating, an optional comment,
 * and the submission that stores them as a review.
 */
module ReviewForm {
  import opened Wrappers
  import Text
  import Store

  /** How many stars the form shows. */
  const Stars: nat := 5

  /** The comment as stored: trimmed, and `null` when nothing but white space was typed. */
  function NormalizedComment(comment: string): (r: Option<string>)
    ensures r.None? <==> forall i :: 0 <= i < |comment| ==> Text.IsWhitespace(comment[i])
    ensures r.Some? ==> r.value == Text.Trim(comment) && r.value != ""
  {
    var t := Text.Trim(comment);
    if t == "" then None else Some(t)
  }

  /** A stored comment is already normal: storing it again gives the same comment. */
  lemma NormalizedCommentStable(comment: string)
    requires NormalizedComment(comment).Some?
    ensures NormalizedComment(NormalizedComment(comment).value) == NormalizedComment(comment)
  {
    Text.TrimIdempotent(comment);
  }

  /** The submit button is disabled while unrated or while a submission is in flight. */
  function SubmitDisabled(rating: int, isSubmitting: bool): (disabled: bool)
    ensures !disabled <==> rating != 0 && !isSubmitting
    ensures 0 <= rating <= Stars && !disabled ==> 1 <= rating <= Stars
  {
    rating == 0 || isSubmitting
  }

  /** The stars as drawn, first to fifth: star `i + 1` is filled when it is at most the rating. */
  function StarRow(rating: int): (filled: seq<bool>)
    ensures |filled| == Stars
    ensures forall i :: 0 <= i < Stars ==> (filled[i] <==> i + 1 <= rating)
  {
    seq(Stars, i requires 0 <= i < Stars => i + 1 <= rating)
  }

  function CountFilled(stars: seq<bool>): nat
  {
    if stars == [] then 0
    else CountFilled(stars[..|stars| - 1]) + (if stars[|stars| - 1] then 1 else 0)
  }

  /** The filled stars are a prefix of the row: the rating's worth and no more. */
  lemma {:induction false} FilledStarsShowRating(rating: int)
    requires 0 <= rating <= Stars
    ensures CountFilled(StarRow(rating)) == rating
  {
    var row := StarRow(rating);
    CountFilledPrefix(row, Stars, rating);
    assert row[..Stars] == row;
  }

  lemma {:induction false} CountFilledPrefix(row: seq<bool>, n: nat, rating: int)
    requires n <= |row| && 0 <= rating <= |row|
    requires forall i :: 0 <= i < |row| ==> (row[i] <==> i + 1 <= rating)
    ensures CountFilled(row[..n]) == if n <= rating then n else rating
  {
    if n > 0 {
      CountFilledPrefix(row, n - 1, rating);
      assert row[..n][..n - 1] == row[..n - 1];
    }
  }

  /** The caption next to the stars: "k out of 5" once rated, a prompt while the rating is 0. */
  function RatingCaption(rating: nat): (caption: string)
    ensures rating == 0 ==> caption == "Rate your experience"
    ensures rating != 0 ==> caption == Text.NatToString(rating) + " out of 5"
  {
    if rating != 0 then Text.NatToString(rating) + " out of 5" else "Rate your experience"
  }

  /** The row inserted into `reviews`. */
  datatype ReviewRow = ReviewRow(sessionId: string, reviewerId: string, revieweeId: string, rating: int, comment: Option<string>)

  /** The toasts the form raises. */
  datatype Toast = ReviewSubmitted | SubmitError

  class ReviewFormView {
    const sessionId: string
    const revieweeId: string
    /** Whether the parent passed `onReviewSubmitted`. */
    const hasCallback: bool
    var rating: nat
    var comment: string
    var isSubmitting: bool
    /** How many times `onReviewSubmitted` has been called. */
    var callbackCalls: nat
    var toasts: seq<Toast>

    /** The rating is one the stars can set, or 0 while unrated. */
    predicate Valid()
      reads this
    {
      rating <= Stars
    }

    /** A fresh form is unrated, with an empty comment, and its submit button disabled. */
    constructor (sessionId: string, revieweeId: string, hasCallback: bool)
      ensures this.sessionId == sessionId && this.revieweeId == revieweeId && this.hasCallback == hasCallback
      ensures rating == 0 && comment == "" && !isSubmitting && callbackCalls == 0 && toasts == []
      ensures SubmitDisabled(rating, isSubmitting)
      ensures Valid()
    {
      this.sessionId := sessionId;
      this.revieweeId := revieweeId;
      this.hasCallback := hasCallback;
      rating := 0;
      comment := "";
      isSubmitting := false;
      callbackCalls := 0;
      toasts := [];
    }

    /** A click on star `star` of the five. */
    method ClickStar(star: nat)
      requires 1 <= star <= Stars
      requires Valid()
      modifies this
      ensures Valid()
      ensures rating == star && comment == old(comment) && isSubmitting == old(isSubmitting)
      ensures callbackCalls == old(callbackCalls) && toasts == old(toasts)
    {
      rating := star;
    }

    /** Typing in the comment box. */
    method SetComment(text: string)
      requires Valid()
      modifies this
      ensures Valid()
      ensures comment == text && rating == old(rating) && isSubmitting == old(isSubmitting)
      ensures callbackCalls == old(callbackCalls) && toasts == old(toasts)
    {
      comment := text;
    }

    /** The review this form would store for `user`. */
    function Review(user: string): (r: ReviewRow)
      reads this
      ensures r.sessionId == sessionId && r.reviewerId == user && r.revieweeId == revieweeId
      ensures r.rating == rating && r.comment == NormalizedComment(comment)
    {
      ReviewRow(sessionId, user, revieweeId, rating, NormalizedComment(comment))
    }

    /**
     * `handleSubmit`, the store's answer given as `outcome`. Without a user nothing
     * happens. Otherwise the review is sent; the rating itself is not checked here (only
     * the button's gate stops a zero rating). On success the form is reset and the parent
     * told; on error the rating and comment are kept. The busy flag ends down.
     */
    method HandleSubmit(user: Option<string>, db: Store.Table<ReviewRow>, outcome: WriteOutcome)
      requires Valid()
      modifies this, db
      ensures Valid()
      ensures user.None? ==>
        db.rows == old(db.rows) && rating == old(rating) && comment == old(comment)
        && isSubmitting == old(isSubmitting) && callbackCalls == old(callbackCalls) && toasts == old(toasts)
      ensures user.Some? ==> !isSubmitting
      ensures user.Some? && outcome == WriteOk ==>
        db.rows == old(db.rows) + [old(Review(user.value))]
        && rating == 0 && comment == ""
        && callbackCalls == old(callbackCalls) + (if hasCallback then 1 else 0)
        && toasts == old(toasts) + [ReviewSubmitted]
      ensures user.Some? && outcome == WriteError ==>
        db.rows == old(db.rows) && rating == old(rating) && comment == old(comment)
        && callbackCalls == old(callbackCalls) && toasts == old(toasts) + [SubmitError]
    {
      if user.None? {
        return;
      }
      isSubmitting := true;
      var row := Review(user.value);
      if outcome == WriteOk {
        db.Insert(row);
        toasts := toasts + [ReviewSubmitted];
        rating := 0;
        comment := "";
        if hasCallback {
          callbackCalls := callbackCalls + 1;
        }
      } else {
        toasts := toasts + [SubmitError];
      }
      isSubmitting := false;
    }

    /**
     * Pressing the submit button: a disabled button does nothing; an enabled one runs
     * `handleSubmit`. `handleSubmit` does not check the rating itself, so it is this gate,
     * together with the stars, that keeps every stored rating between 1 and 5.
     */
    method SubmitClicked(user: Option<string>, db: Store.Table<ReviewRow>, outcome: WriteOutcome)
      requires Valid()
      modifies this, db
      ensures Valid()
      ensures forall i :: |old(db.rows)| <= i < |db.rows| ==> 1 <= db.rows[i].rating <= Stars
      ensures SubmitDisabled(old(rating), old(isSubmitting)) ==>
        db.rows == old(db.rows) && rating == old(rating) && comment == old(comment)
        && isSubmitting == old(isSubmitting) && callbackCalls == old(callbackCalls) && toasts == old(toasts)
      ensures !SubmitDisabled(old(rating), old(isSubmitting)) && user.None? ==>
        db.rows == old(db.rows) && rating == old(rating) && comment == old(comment)
        && isSubmitting == old(isSubmitting) && callbackCalls == old(callbackCalls) && toasts == old(toasts)
      ensures !SubmitDisabled(old(rating), old(isSubmitting)) && user.Some? ==> !isSubmitting
      ensures !SubmitDisabled(old(rating), old(isSubmitting)) && user.Some? && outcome == WriteOk ==>
        db.rows == old(db.rows) + [old(Review(user.value))]
        && rating == 0 && comment == ""
        && callbackCalls == old(callbackCalls) + (if hasCallback then 1 else 0)
        && toasts == old(toasts) + [ReviewSubmitted]
      ensures !SubmitDisabled(old(rating), old(isSubmitting)) && user.Some? && outcome == WriteError ==>
        db.rows == old(db.rows) && rating == old(rating) && comment == old(comment)
        && callbackCalls == old(callbackCalls) && toasts == old(toasts) + [SubmitError]
    {
      if !SubmitDisabled(rating, isSubmitting) {
        HandleSubmit(user, db, outcome);
      }
    }
  }
}
