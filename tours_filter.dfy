/** The tour search of the travel site's `/tours` endpoint: the filter
    parameters, the number parsing of the search box, the per-tour test and
    the filtering of a tour list. */
module ToursFilter {
  import opened Text
  import opened TourModel

  const MaxInt: int := 0x7FFF_FFFF
  const MinInt: int := -0x8000_0000

  /** `char.ToLower` on the letters the site's data uses: ASCII and the
      basic Cyrillic alphabet with Ё. */
  function LowerChar(c: char): char {
    if 'A' <= c <= 'Z' then (c as int + 32) as char
    else if 'А' <= c <= 'Я' then (c as int + 32) as char
    else if c == 'Ё' then 'ё'
    else c
  }

  function Lower(s: string): (r: string)
    ensures |r| == |s| && forall i :: 0 <= i < |s| ==> r[i] == LowerChar(s[i])
  {
    seq(|s|, i requires 0 <= i < |s| => LowerChar(s[i]))
  }

  /** Ordinal `Contains`. */
  predicate ContainsText(s: string, part: string) {
    Contains(s, part, false)
  }

  /** `Contains(part, StringComparison.OrdinalIgnoreCase)`. */
  predicate ContainsIgnoreCase(s: string, part: string) {
    ContainsText(Lower(s), Lower(part))
  }

  /** `string.IsNullOrWhiteSpace`. */
  predicate IsNullOrWhiteSpace(s: Option<string>) {
    s.None? || IsBlank(s.value)
  }

  /** The ASCII digits of `s`, in order (`input.Where(char.IsDigit)`). */
  function Digits(s: string): (r: string)
    ensures |r| <= |s|
    ensures forall i :: 0 <= i < |r| ==> IsDigit(r[i])
  {
    if s == [] then []
    else if IsDigit(s[|s| - 1]) then Digits(s[..|s| - 1]) + [s[|s| - 1]]
    else Digits(s[..|s| - 1])
  }

  /** A string of digits keeps all of them. */
  lemma {:induction false} DigitsOfDigits(s: string)
    requires forall i :: 0 <= i < |s| ==> IsDigit(s[i])
    ensures Digits(s) == s
    decreases |s|
  {
    if s != [] {
      DigitsOfDigits(s[..|s| - 1]);
      assert s[..|s| - 1] + [s[|s| - 1]] == s;
    }
  }

  /** `ParseNumber`: null for a blank input; otherwise the number its digits
      spell, or null when there are none or they overflow an `int`. */
  function ParseNumber(input: string): (r: Option<int>)
    ensures r.Some? ==> 0 <= r.value <= MaxInt
    ensures IsBlank(input) ==> r.None?
  {
    if IsBlank(input) then None
    else
      var digits := Digits(input);
      if digits == [] then None
      else if DigitsValue(digits) <= MaxInt then Some(DigitsValue(digits))
      else None
  }

  /** Characters other than digits are ignored. */
  lemma ParseNumberKeepsDigits(input: string)
    requires !IsBlank(input)
    ensures ParseNumber(input) == ParseNumber(Digits(input))
  {
    var digits := Digits(input);
    DigitsOfDigits(digits);
    if digits != [] {
      assert !IsSpace(digits[0]);
    }
  }

  /** A number written in decimal reads back as itself while it fits an `int`. */
  lemma ParseNumberRoundTrip(n: nat)
    requires n <= MaxInt
    ensures ParseNumber(NatToString(n)) == Some(n)
  {
    var s := NatToString(n);
    assert !IsSpace(s[0]);
    DigitsOfDigits(s);
    DigitsRoundTrip(n);
  }

  /** `int.TryParse` with the default style: blanks around, an optional sign,
      decimal digits, within the `int` range. */
  function TryParseInt(s: string): (r: Option<int>)
    ensures r.Some? ==> MinInt <= r.value <= MaxInt
  {
    var t := Trim(s);
    var signed := |t| > 0 && (t[0] == '-' || t[0] == '+');
    var digits := if signed then t[1..] else t;
    if digits == [] || exists i :: 0 <= i < |digits| && !IsDigit(digits[i]) then None
    else
      var v: int := if signed && t[0] == '-' then -(DigitsValue(digits) as int) else DigitsValue(digits);
      if MinInt <= v <= MaxInt then Some(v) else None
  }

  /** `FilterParams`, as `ExtractFilters` leaves it (the hotel search text is
      already lower-cased there). */
  datatype FilterParams = FilterParams(
    departureCity: Option<string>,
    arrivalCity: Option<string>,
    departureDate: Option<string>,
    nightsCount: Option<int>,
    adultsCount: Option<int>,
    minPrice: int,
    maxPrice: int,
    hotelSearch: Option<string>,
    checkboxFilters: map<string, seq<string>>)

  /** `new FilterParams()`. */
  const DefaultFilters: FilterParams := FilterParams(None, None, None, None, None, 0, 2000000, None, map[])

  const PopularCategory: string := "Популярные фильтры"
  const MealCategory: string := "Питание"
  const StarsCategory: string := "Категория отеля"
  const RegionCategory: string := "Регионы и курорты"

  /** `filters.TryGetValue(key, out var list) && list.Count > 0`. */
  predicate Selected(filters: map<string, seq<string>>, key: string) {
    key in filters && |filters[key]| > 0
  }

  /** One option of the popular-filters category. */
  predicate PopularOption(t: Tour, option: string) {
    if option == "all-inclusive" then t.mealPlan.Some? && ContainsIgnoreCase(t.mealPlan.value, "все включено")
    else if option == "wi-fi" then !IsNullOrWhiteSpace(t.wifi) && Lower(t.wifi.value) != "нет"
    else if option == "first-line" then t.popularFilters.Some? && ContainsIgnoreCase(t.popularFilters.value, "1-я линия")
    else if option == "beach" then t.popularFilters.Some? && ContainsIgnoreCase(t.popularFilters.value, "пляж")
    else option == "regular-flight"
  }

  /** The lower-cased meal plan, "" when there is none. */
  function MealText(t: Tour): string {
    if t.mealPlan.None? then "" else Lower(t.mealPlan.value)
  }

  /** One option of the meal category, on the lower-cased meal plan. */
  predicate MealOption(meal: string, option: string) {
    if option == "ultra_all" then ContainsText(meal, "ультра все включено")
    else if option == "all" then ContainsText(meal, "все включено") && !ContainsText(meal, "ультра")
    else if option == "breakfest" then ContainsText(meal, "завтрак")
    else if option == "without_food" then IsBlank(meal) || ContainsText(meal, "без питания")
    else if option == "pansion" then ContainsText(meal, "полупансион")
    else if option == "full_pansion" then ContainsText(meal, "полный пансион")
    else false
  }

  /** The star ratings the entries name, in order, unparsable ones dropped. */
  function AllowedStars(entries: seq<string>): (r: seq<int>)
    ensures forall x | x in r :: exists i :: 0 <= i < |entries| && TryParseInt(entries[i]) == Some(x)
    ensures forall i :: 0 <= i < |entries| && TryParseInt(entries[i]).Some? ==> TryParseInt(entries[i]).value in r
  {
    if entries == [] then []
    else
      var init := entries[..|entries| - 1];
      var rest := AllowedStars(init);
      assert forall i :: 0 <= i < |init| ==> init[i] == entries[i];
      match TryParseInt(entries[|entries| - 1])
      case None => rest
      case Some(star) => rest + [star]
  }

  /** The star-category test: no restriction unless some entry parses. */
  predicate StarsAllowed(rating: int, entries: seq<string>) {
    var allowed := AllowedStars(entries);
    !(|allowed| > 0 && rating !in allowed)
  }

  /** One entry of the region category, against the arrival city or the region. */
  predicate RegionOption(t: Tour, r: string) {
    var city := if t.arrivalCity.None? then "" else Lower(t.arrivalCity.value);
    var region := if t.region.None? then "" else Lower(t.region.value);
    ContainsText(city, Lower(r)) || ContainsText(region, Lower(r))
  }

  predicate AnyPopular(t: Tour, options: seq<string>) {
    exists i :: 0 <= i < |options| && PopularOption(t, options[i])
  }

  predicate AnyMeal(t: Tour, options: seq<string>) {
    exists i :: 0 <= i < |options| && MealOption(MealText(t), options[i])
  }

  predicate AnyRegion(t: Tour, options: seq<string>) {
    exists i :: 0 <= i < |options| && RegionOption(t, options[i])
  }

  /** `MatchesCheckboxFilters`: each selected category must hold, and
      within a category one option is enough. */
  predicate MatchesCheckboxFilters(t: Tour, filters: map<string, seq<string>>) {
    && (Selected(filters, PopularCategory) ==> AnyPopular(t, filters[PopularCategory]))
    && (Selected(filters, MealCategory) ==> AnyMeal(t, filters[MealCategory]))
    && (Selected(filters, StarsCategory) ==> StarsAllowed(t.rating, filters[StarsCategory]))
    && (Selected(filters, RegionCategory) ==> AnyRegion(t, filters[RegionCategory]))
  }

  /** A text criterion: a blank filter imposes nothing, and a set one needs
      the field to be present and to contain it, ignoring case. */
  predicate TextCriterion(filter: Option<string>, field: Option<string>) {
    IsNullOrWhiteSpace(filter) || (field.Some? && ContainsIgnoreCase(field.value, filter.value))
  }

  /** The hotel criterion compares the lower-cased hotel name ordinally. */
  predicate HotelCriterion(search: Option<string>, hotel: Option<string>) {
    IsNullOrWhiteSpace(search) || (hotel.Some? && ContainsText(Lower(hotel.value), search.value))
  }

  /** The predicate of `FilterTours`' `Where`. */
  predicate Passes(t: Tour, f: FilterParams) {
    && TextCriterion(f.departureCity, t.departureCity)
    && TextCriterion(f.arrivalCity, t.arrivalCity)
    && TextCriterion(f.departureDate, t.departureDate)
    && (f.nightsCount.None? || t.nightsCount == f.nightsCount.value)
    && (f.adultsCount.None? || t.adultsCount >= f.adultsCount.value)
    && t.price >= f.minPrice && t.price <= f.maxPrice
    && HotelCriterion(f.hotelSearch, t.hotelName)
    && MatchesCheckboxFilters(t, f.checkboxFilters)
  }

  /** `FilterTours`: the tours that pass, in their original order. */
  function FilterTours(tours: seq<Tour>, f: FilterParams): (r: seq<Tour>)
    ensures |r| <= |tours|
    ensures forall t | t in r :: t in tours && Passes(t, f)
    ensures forall t | t in tours && Passes(t, f) :: t in r
  {
    if tours == [] then []
    else
      var rest := FilterTours(tours[..|tours| - 1], f);
      var last := tours[|tours| - 1];
      assert forall t | t in tours :: t in tours[..|tours| - 1] || t == last;
      if Passes(last, f) then rest + [last] else rest
  }

  /** Filtering keeps the order: filtering a concatenation concatenates the
      filtered parts. */
  lemma {:induction false} FilterToursAppend(a: seq<Tour>, b: seq<Tour>, f: FilterParams)
    ensures FilterTours(a + b, f) == FilterTours(a, f) + FilterTours(b, f)
    decreases |b|
  {
    if b == [] {
      assert a + b == a;
    } else {
      var b' := b[..|b| - 1];
      assert (a + b)[..|a + b| - 1] == a + b';
      assert (a + b)[|a + b| - 1] == b[|b| - 1];
      FilterToursAppend(a, b', f);
    }
  }

  /** The numeric criteria of a passing tour: the price within the bounds,
      inclusive; the nights equal; the adults at least the filter's. */
  lemma NumericCriteria(t: Tour, f: FilterParams)
    requires Passes(t, f)
    ensures f.minPrice <= t.price <= f.maxPrice
    ensures f.nightsCount.Some? ==> t.nightsCount == f.nightsCount.value
    ensures f.adultsCount.Some? ==> t.adultsCount >= f.adultsCount.value
  {
  }

  /** With the default parameters only the price range 0..2000000 counts. */
  lemma DefaultFiltersIff(t: Tour)
    ensures Passes(t, DefaultFilters) <==> 0 <= t.price <= 2000000
  {
  }

  /** A blank text filter imposes nothing; a set one rejects a missing field. */
  lemma TextCriterionLaws(filter: Option<string>, field: Option<string>)
    ensures IsNullOrWhiteSpace(filter) ==> TextCriterion(filter, field)
    ensures !IsNullOrWhiteSpace(filter) && field.None? ==> !TextCriterion(filter, field)
    ensures HotelCriterion(filter, field) <==> IsNullOrWhiteSpace(filter) || (field.Some? && ContainsText(Lower(field.value), filter.value))
  {
  }

  /** A category that is absent or empty imposes nothing, and removing a
      category never rejects a tour that passed: categories are combined
      with AND. */
  lemma CategoriesAreConjoined(t: Tour, filters: map<string, seq<string>>, key: string)
    ensures MatchesCheckboxFilters(t, filters[key := []]) == MatchesCheckboxFilters(t, filters - {key})
    ensures MatchesCheckboxFilters(t, filters) ==> MatchesCheckboxFilters(t, filters - {key})
  {
  }

  /** Within a selected popular, meal or region category an extra option
      never rejects a tour that passed: options are combined with OR. */
  lemma OptionsAreAlternatives(t: Tour, filters: map<string, seq<string>>, key: string, option: string)
    requires key == PopularCategory || key == MealCategory || key == RegionCategory
    requires Selected(filters, key)
    requires MatchesCheckboxFilters(t, filters)
    ensures MatchesCheckboxFilters(t, filters[key := filters[key] + [option]])
  {
    var opts := filters[key];
    var more := opts + [option];
    assert forall i :: 0 <= i < |opts| ==> more[i] == opts[i];
    if key == PopularCategory {
      var i :| 0 <= i < |opts| && PopularOption(t, opts[i]);
      assert PopularOption(t, more[i]);
      assert AnyPopular(t, more);
    } else if key == MealCategory {
      var i :| 0 <= i < |opts| && MealOption(MealText(t), opts[i]);
      assert MealOption(MealText(t), more[i]);
      assert AnyMeal(t, more);
    } else {
      var i :| 0 <= i < |opts| && RegionOption(t, opts[i]);
      assert RegionOption(t, more[i]);
      assert AnyRegion(t, more);
    }
  }

  /** The star test: a tour passes when no entry parses, or when some entry
      parses to its rating; unparsable entries change nothing. */
  lemma StarsAllowedIff(rating: int, entries: seq<string>, bad: string)
    requires TryParseInt(bad).None?
    ensures StarsAllowed(rating, entries) <==>
      (forall i :: 0 <= i < |entries| ==> TryParseInt(entries[i]).None?)
      || (exists i :: 0 <= i < |entries| && TryParseInt(entries[i]) == Some(rating))
    ensures StarsAllowed(rating, entries + [bad]) == StarsAllowed(rating, entries)
  {
    var allowed := AllowedStars(entries);
    if |allowed| > 0 {
      assert allowed[0] in allowed;
    }
    var more := entries + [bad];
    assert more[..|more| - 1] == entries;
  }

  /** `regular-flight` lets every tour through the popular category. */
  lemma RegularFlightMatchesAll(t: Tour, options: seq<string>)
    requires "regular-flight" in options
    ensures AnyPopular(t, options)
  {
    var i :| 0 <= i < |options| && options[i] == "regular-flight";
    assert PopularOption(t, options[i]);
  }

  /** `all` rejects an ultra-all-inclusive plan; `without_food` accepts a
      missing or blank plan; options the site does not know never match. */
  lemma MealRules(t: Tour, option: string)
    ensures MealOption(MealText(t), "all") ==> !ContainsText(MealText(t), "ультра")
    ensures IsNullOrWhiteSpace(t.mealPlan) ==> MealOption(MealText(t), "without_food")
    ensures option !in {"ultra_all", "all", "breakfest", "without_food", "pansion", "full_pansion"} ==> !MealOption(MealText(t), option)
    ensures option !in {"all-inclusive", "wi-fi", "first-line", "beach", "regular-flight"} ==> !PopularOption(t, option)
  {
    if t.mealPlan.Some? && IsBlank(t.mealPlan.value) {
      var m := MealText(t);
      forall i | 0 <= i < |m| ensures IsSpace(m[i]) {
        assert IsSpace(t.mealPlan.value[i]);
      }
    }
  }
}
