/**
 * The dashboard's "Teaching" card: a preview of the user's first three teaching offers,
 * a "View All" button when there are more, and the button that creates a new offer.
 */
module TeachingSection {
  import opened Wrappers
  import Text

  /** A row of `teaching_offers`, with the fields the card reads. */
  datatype TeachingOffer = TeachingOffer(id: string, subject: string, level: string, pointsPerHour: int)

  /** How many offers the card previews. */
  const PreviewSize: nat := 3

  /** One previewed offer: subject, level badge, price line, and where "View Offer" leads. */
  datatype OfferCard = OfferCard(subject: string, levelBadge: string, pointsText: string, link: string)

  /** What the card shows. */
  datatype SectionView =
    | NoOffers                                             // the prompt and "Create Teaching Offer"
    | Listing(cards: seq<OfferCard>, viewAll: Option<string>)  // the preview, maybe "View All", and "Create New Offer"

  function CardOf(o: TeachingOffer): OfferCard
  {
    OfferCard(o.subject, Text.Capitalize(o.level), Text.IntToString(o.pointsPerHour) + " pts/hr", "/offers/" + o.id)
  }

  function Min(a: int, b: int): int { if a <= b then a else b }

  /** The caption of the "View All" button for `n` offers. */
  function ViewAllLabel(n: nat): string
  {
    "View All (" + Text.NatToString(n) + ")"
  }

  /**
   * The card for a list of offers: an empty list shows only the prompt; otherwise the
   * first three offers in order, each with its capitalised level and its points per hour,
   * and "View All" with the total exactly when there are more than three.
   */
  function Render(offers: seq<TeachingOffer>): (v: SectionView)
    ensures v.NoOffers? <==> offers == []
    ensures v.Listing? ==> |v.cards| == Min(PreviewSize, |offers|)
    ensures v.Listing? ==> forall i :: 0 <= i < |v.cards| ==>
      && v.cards[i].subject == offers[i].subject
      && v.cards[i].levelBadge == Text.Capitalize(offers[i].level)
      && v.cards[i].pointsText == Text.IntToString(offers[i].pointsPerHour) + " pts/hr"
      && v.cards[i].link == "/offers/" + offers[i].id
    ensures v.Listing? ==> (v.viewAll.Some? <==> |offers| > PreviewSize)
    ensures v.Listing? && v.viewAll.Some? ==> v.viewAll.value == ViewAllLabel(|offers|)
  {
    if |offers| > 0 then
      var shown := offers[..Min(PreviewSize, |offers|)];
      Listing(seq(|shown|, i requires 0 <= i < |shown| => CardOf(shown[i])),
              if |offers| > PreviewSize then Some(ViewAllLabel(|offers|)) else None)
    else NoOffers
  }

  /** Every offer is either previewed or counted by a "View All" button. */
  lemma NothingHiddenWithoutViewAll(offers: seq<TeachingOffer>, k: nat)
    requires k < |offers|
    ensures Render(offers).Listing?
    ensures k >= |Render(offers).cards| ==> Render(offers).viewAll.Some?
  {
  }

  /** The number on the "View All" button is the total, written in decimal. */
  lemma {:induction false} ViewAllShowsTotal(n: nat)
    ensures var caption := ViewAllLabel(n);
      && |caption| > 11 && caption[..10] == "View All (" && caption[|caption| - 1] == ')'
      && Text.AllDigits(caption[10..|caption| - 1]) && Text.DigitsValue(caption[10..|caption| - 1]) == n
  {
    var digits := Text.NatToString(n);
    var caption := ViewAllLabel(n);
    assert caption == "View All (" + digits + ")";
    assert caption[10..|caption| - 1] == digits;
  }
}
