/** The customer page `Task_2/pages/1_user_dashboard.py`: the rule-based
    reply to a review, the conversion of the star widget's selection into a
    rating, and the guard that refuses a submission without stars.

    The simulated delay, the CSV append and every Streamlit call are not
    part of this model. */
module UserDashboard {
  import opened Wrappers
  import opened PyStr

  /** The fixed replies. */
  const EmptyReviewReply: string := "Thank you for the rating!"
  const BalancedReply: string :=
    "Thank you for your "
    + "balanced feedback. We are constantly trying to improve to turn that 3 stars into 5."
  const ApologyReply: string :=
    "We apologize "
    + "that your experience wasn't up to standard. Your feedback regarding this issue has been logged for our support team."

  /** The three fixed pieces of the high-rating reply, around the rating
      and the review excerpt. */
  const ThrilledOpen: string := "We are " + "thrilled to hear that! Thank you for the "
  const ThrilledMiddle: string := StarSuffix + GladYouEnjoyed
  const StarSuffix: string := "-star"
  const GladYouEnjoyed: string := " feedback. We're glad you enjoyed: '"
  const ThrilledClose: string := "...'"

  /** `review_text[:30]`. */
  const ExcerptLength: nat := 30

  const NoRatingWarning: string := "Please select a star rating before submitting."

  /** `review_text[:30]`: the review itself when it is shorter. */
  function Excerpt(review: string): (e: string)
    ensures e == review[..if |review| < ExcerptLength then |review| else ExcerptLength]
    ensures |review| <= ExcerptLength ==> e == review
    ensures e == [] <==> review == []
  {
    if |review| <= ExcerptLength then review else review[..ExcerptLength]
  }

  /** The f-string of the high-rating branch: its opening words, then
      the rating's decimal text followed by `-star feedback. We're glad
      you enjoyed: '`, and at the end the excerpt followed by `...'`,
      with nothing else in between. */
  function ThrilledReply(rating: int, excerpt: string): (t: string)
    ensures |ThrilledOpen| <= |t| && t[..|ThrilledOpen|] == ThrilledOpen
    ensures IsOccurrence(t, IntToString(rating) + StarSuffix, |ThrilledOpen|)
    ensures |excerpt + ThrilledClose| <= |t| && t[|t| - |excerpt + ThrilledClose|..] == excerpt + ThrilledClose
    ensures IsOccurrence(t, IntToString(rating) + ThrilledMiddle, |ThrilledOpen|)
    ensures |t| == |ThrilledOpen| + |IntToString(rating)| + |ThrilledMiddle| + |excerpt| + |ThrilledClose|
  {
    ReplyPieces(ThrilledOpen, IntToString(rating), StarSuffix, GladYouEnjoyed, excerpt, ThrilledClose);
    var t := ThrilledOpen + IntToString(rating) + ThrilledMiddle + excerpt + ThrilledClose;
    assert t == ThrilledOpen + (IntToString(rating) + ThrilledMiddle) + (excerpt + ThrilledClose);
    t
  }

  /** `generate_ai_response(rating, review_text)`: the empty review is
      answered first, whatever the rating; otherwise four stars or more get
      the thrilled reply, exactly three the balanced one and everything
      else the apology. Each fixed reply is reached on exactly its
      condition, so the four branches never give the same text. */
  function GenerateAiResponse(rating: int, review: string): (r: string)
    ensures r == EmptyReviewReply <==> review == []
    ensures r == BalancedReply <==> review != [] && rating == 3
    ensures r == ApologyReply <==> review != [] && rating < 3
    ensures review != [] && rating >= 4 ==> r == ThrilledReply(rating, Excerpt(review))
  {
    RepliesDistinct(rating, Excerpt(review));
    if review == [] then EmptyReviewReply
    else if rating >= 4 then ThrilledReply(rating, Excerpt(review))
    else if rating == 3 then BalancedReply
    else ApologyReply
  }

  /** The thrilled reply differs from the three fixed ones, which differ
      from each other. */
  lemma RepliesDistinct(rating: int, excerpt: string)
    ensures ThrilledReply(rating, excerpt) != EmptyReviewReply
    ensures ThrilledReply(rating, excerpt) != BalancedReply
    ensures ThrilledReply(rating, excerpt) != ApologyReply
    ensures EmptyReviewReply != BalancedReply && EmptyReviewReply != ApologyReply
    ensures BalancedReply != ApologyReply
  {
    var t := ThrilledReply(rating, excerpt);
    assert t[..|ThrilledOpen|] == ThrilledOpen;
    assert t[0] == 'W' && t[4] == 'r';
    assert EmptyReviewReply[0] == 'T' && BalancedReply[0] == 'T' && ApologyReply[4] == 'p';
    assert EmptyReviewReply[14] == 't' && BalancedReply[14] == 'y';
  }

  /** The high-rating reply carries the rating's decimal text right after
      its opening words, and ends with the excerpt followed by `...'`. */
  lemma ThrilledLayout(rating: int, review: string)
    requires review != [] && rating >= 4
    ensures var r := GenerateAiResponse(rating, review);
            IsOccurrence(r, IntToString(rating) + StarSuffix, |ThrilledOpen|)
    ensures var r := GenerateAiResponse(rating, review);
            var tail := Excerpt(review) + ThrilledClose;
            |tail| <= |r| && r[|r| - |tail|..] == tail
  {
  }

  /** Where the pieces of a five-part text sit. */
  lemma ReplyPieces(open: string, n: string, s: string, rest: string, e: string, close: string)
    ensures var r := open + n + (s + rest) + e + close;
            |open| <= |r| && r[..|open|] == open
    ensures var r := open + n + (s + rest) + e + close;
            IsOccurrence(r, n + s, |open|)
    ensures var r := open + n + (s + rest) + e + close;
            |e + close| <= |r| && r[|r| - |e + close|..] == e + close
  {
    var r := open + n + (s + rest) + e + close;
    assert r == open + (n + s) + (rest + (e + close));
    assert r == (open + n + (s + rest)) + (e + close);
  }

  /** Only the first thirty characters of the review reach the reply:
      answering the excerpt gives the same text as answering the whole
      review, so two reviews that agree on their first thirty characters
      get the same reply. */
  lemma ReplyOnlySeesExcerpt(rating: int, review: string)
    ensures GenerateAiResponse(rating, review) == GenerateAiResponse(rating, Excerpt(review))
  {
    var e := Excerpt(review);
    assert Excerpt(e) == e;
  }

  /** Two reviews with the same first thirty characters get the same
      reply. */
  lemma ReplySameExcerpt(rating: int, review1: string, review2: string)
    requires Excerpt(review1) == Excerpt(review2)
    ensures GenerateAiResponse(rating, review1) == GenerateAiResponse(rating, review2)
  {
    ReplyOnlySeesExcerpt(rating, review1);
    ReplyOnlySeesExcerpt(rating, review2);
  }

  /** What `st.feedback("stars")` hands back once a star is clicked: the
      index of that star, from 0 to 4. */
  type StarIndex = i: int | 0 <= i < 5

  /** Lines 58-62: the selected index plus one, or 0 when nothing is
      selected. A selection always gives one to five stars, and 0 shows
      exactly that nothing was selected. */
  function RatingValue(selected: Option<StarIndex>): (rating: int)
    ensures rating == 0 <==> selected.None?
    ensures selected.Some? ==> 1 <= rating <= 5
    ensures selected.Some? ==> rating - 1 == selected.value
  {
    match selected
    case None => 0
    case Some(i) => i + 1
  }

  /** Distinct selections give distinct ratings. */
  lemma RatingValueInjective(a: Option<StarIndex>, b: Option<StarIndex>)
    requires RatingValue(a) == RatingValue(b)
    ensures a == b
  {
  }

  /** What the page shows after the submit button. */
  datatype Outcome =
    | Warned(message: string)
    | Replied(rating: int, reply: string)

  /** Lines 70-76: a zero rating is refused with the warning and no reply
      is generated; otherwise the reply is generated for the rating. */
  function Submit(selected: Option<StarIndex>, review: string): (o: Outcome)
    ensures o.Warned? <==> selected.None?
    ensures o.Warned? ==> o.message == NoRatingWarning
    ensures o.Replied? ==> 1 <= o.rating <= 5 && o.reply == GenerateAiResponse(o.rating, review)
    ensures o.Replied? ==> selected.Some? && o.rating == selected.value + 1
  {
    var rating := RatingValue(selected);
    if rating == 0 then Warned(NoRatingWarning)
    else Replied(rating, GenerateAiResponse(rating, review))
  }

  /** Through the page, the reply follows the star clicked: with a review
      written, the fourth and fifth stars get the thrilled reply, the
      third the balanced one and the first two the apology; a submission
      never reaches the reply for a rating outside one to five. */
  lemma SubmitByStar(i: StarIndex, review: string)
    requires review != []
    ensures var o := Submit(Some(i), review);
            && o.Replied?
            && (i >= 3 ==> o.reply == ThrilledReply(i + 1, Excerpt(review)))
            && (o.reply == BalancedReply <==> i == 2)
            && (o.reply == ApologyReply <==> i < 2)
  {
    var o := Submit(Some(i), review);
    assert o.rating == i + 1;
    assert o.reply == GenerateAiResponse(i + 1, review);
  }

  /** Without a review, every star gets the same thanks. */
  lemma SubmitWithoutReview(i: StarIndex)
    ensures Submit(Some(i), []) == Replied(i + 1, EmptyReviewReply)
  {
  }
}
