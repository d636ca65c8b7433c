/** The `Tour` record of the travel site and its `StarsDisplay` getter,
    which draws the hotel rating as five stars. */
module TourModel {
  import opened Text

  /** A row of the `tours` table. Prices are whole numbers here; the
      columns the filters do not read are left out. */
  datatype Tour = Tour(
    id: int,
    name: Option<string>,
    departureCity: Option<string>,
    arrivalCity: Option<string>,
    departureDate: Option<string>,
    nightsCount: int,
    adultsCount: int,
    price: int,
    hotelName: Option<string>,
    rating: int,
    mealPlan: Option<string>,
    wifi: Option<string>,
    popularFilters: Option<string>,
    region: Option<string>)

  /** The initialiser of `rating`. */
  const DefaultRating: int := 5

  /** `new Tour()`: references null, numbers zero, rating at its default. */
  function NewTour(): Tour {
    Tour(0, None, None, None, None, 0, 0, 0, None, DefaultRating, None, None, None, None)
  }

  const Filled: char := '★'
  const Hollow: char := '☆'

  /** `n` copies of `c`. */
  function Repeat(c: char, n: nat): (r: string)
    ensures |r| == n && forall i :: 0 <= i < n ==> r[i] == c
  {
    seq(n, _ => c)
  }

  /** How many of the five stars a rating fills. */
  function FilledCount(rating: int): (k: nat)
    ensures k <= 5
  {
    if rating <= 0 then 0 else if rating >= 5 then 5 else rating
  }

  /** The star line: the filled stars first, then the hollow ones. */
  function Stars(rating: int): string {
    Repeat(Filled, FilledCount(rating)) + Repeat(Hollow, 5 - FilledCount(rating))
  }

  /** Five characters; the star at index `j` (position `j + 1`) is filled
      exactly when `j + 1 <= rating`, and hollow otherwise. */
  lemma StarsPositions(rating: int)
    ensures |Stars(rating)| == 5
    ensures forall j :: 0 <= j < 5 ==> (Stars(rating)[j] == Filled <==> j + 1 <= rating)
    ensures forall j :: 0 <= j < 5 ==> (Stars(rating)[j] == Hollow <==> rating < j + 1)
  {
    var s := Stars(rating);
    var k := FilledCount(rating);
    forall j | 0 <= j < 5
      ensures (s[j] == Filled <==> j + 1 <= rating) && (s[j] == Hollow <==> rating < j + 1)
    {
      if j < k {
        assert s[j] == Filled;
      } else {
        assert s[j] == Repeat(Hollow, 5 - k)[j - k];
      }
    }
  }

  /** A rating of 5 or more fills every star; 0 or less fills none. */
  lemma StarsExtremes(rating: int)
    ensures rating >= 5 ==> Stars(rating) == [Filled, Filled, Filled, Filled, Filled]
    ensures rating <= 0 ==> Stars(rating) == [Hollow, Hollow, Hollow, Hollow, Hollow]
  {
    if rating >= 5 {
      assert Stars(rating) == Repeat(Filled, 5) + [];
    } else if rating <= 0 {
      assert Stars(rating) == [] + Repeat(Hollow, 5);
    }
  }

  /** A tour nobody has rated shows five filled stars. */
  lemma NewTourShowsFiveStars()
    ensures Stars(NewTour().rating) == "★★★★★"
  {
    StarsExtremes(NewTour().rating);
  }

  /** `StarsDisplay`: the `for` loop over positions 1 to 5 appends a filled
      star while the position is within the rating and a hollow one after. */
  method StarsDisplay(t: Tour) returns (stars: string)
    ensures stars == Stars(t.rating)
  {
    stars := "";
    for i := 1 to 6
      invariant |stars| == i - 1
      invariant forall j :: 0 <= j < i - 1 ==> stars[j] == (if j + 1 <= t.rating then Filled else Hollow)
    {
      stars := stars + [if i <= t.rating then Filled else Hollow];
    }
    StarsPositions(t.rating);
    assert stars == Stars(t.rating);
  }
}
