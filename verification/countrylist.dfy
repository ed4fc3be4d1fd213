/** The derivations of the countries list page: the currency summary on
    each card, the search filter, the four sort orders, the slug a card
    click navigates to, and the loading gate in front of them. */
module CountryList {
  import opened Domain
  import opened Text
  import opened Seqs

  // ---------------------------------------------------------------------
  // Currency summary

  /** How a template literal prints an optional field. */
  function Show(field: Option<string>): string
  {
    if field.Some? then field.value else "undefined"
  }

  /** One currency as the card prints it: `name (symbol)`. */
  function CurrencyLabel(c: Currency): string
  {
    Show(c.name) + " (" + Show(c.symbol) + ")"
  }

  function CurrencyLabels(cs: seq<Currency>): (labels: seq<string>)
    ensures |labels| == |cs|
    ensures forall i :: 0 <= i < |cs| ==> labels[i] == CurrencyLabel(cs[i])
  {
    seq(|cs|, i requires 0 <= i < |cs| => CurrencyLabel(cs[i]))
  }

  /** `getCurrencies`: "N/A" without a currencies object, otherwise one
      label per entry joined with ", " (an empty object gives ""). */
  function GetCurrencies(c: Country): (r: string)
    ensures c.currencies.None? ==> r == "N/A"
    ensures c.currencies == Some([]) ==> r == ""
    ensures c.currencies.Some? && |c.currencies.value| == 1 ==>
      r == CurrencyLabel(c.currencies.value[0])
  {
    match c.currencies
    case None => "N/A"
    case Some(cs) => Join(CurrencyLabels(cs), ", ")
  }

  /** One more currency entry adds exactly ", " and its label at the end. */
  lemma GetCurrenciesSnoc(c: Country, cs: seq<Currency>, x: Currency)
    requires |cs| >= 1
    ensures GetCurrencies(c.(currencies := Some(cs + [x]))) ==
      GetCurrencies(c.(currencies := Some(cs))) + ", " + CurrencyLabel(x)
  {
    assert CurrencyLabels(cs + [x]) == CurrencyLabels(cs) + [CurrencyLabel(x)];
    JoinSnoc(CurrencyLabels(cs), CurrencyLabel(x), ", ");
  }

  // ---------------------------------------------------------------------
  // Search

  /** The search test: the lowered common name contains the lowered term. */
  predicate SearchHit(term: string, c: Country)
  {
    Includes(Lower(c.common), Lower(term))
  }

  /** The filter step of `filteredCountries`. */
  function SearchCountries(countries: seq<Country>, term: string): (r: seq<Country>)
    ensures Subsequence(r, countries)
    ensures forall i :: 0 <= i < |r| ==> IsSubstring(Lower(term), Lower(r[i].common))
    ensures forall i :: 0 <= i < |countries| && IsSubstring(Lower(term), Lower(countries[i].common)) ==>
      multiset(r)[countries[i]] == multiset(countries)[countries[i]]
  {
    Filter(countries, (c: Country) => SearchHit(term, c))
  }

  /** An empty search term keeps every country, in order. */
  lemma {:induction false} EmptySearchKeepsAll(countries: seq<Country>)
    ensures SearchCountries(countries, "") == countries
  {
    forall i | 0 <= i < |countries|
      ensures SearchHit("", countries[i])
    {
      assert OccursAt("", Lower(countries[i].common), 0);
    }
    FilterKeepsAll(countries, (c: Country) => SearchHit("", c));
  }

  // ---------------------------------------------------------------------
  // Sorting

  /** `localeCompare` on common names, taken as a parameter. */
  type NameOrder = (string, string) -> int

  /** What `Array.prototype.sort` needs of a comparator to be well defined:
      swapping the arguments flips the sign, and "not after" is transitive. */
  ghost predicate ConsistentNameOrder(lc: NameOrder)
  {
    && (forall a, b :: (lc(a, b) < 0 <==> lc(b, a) > 0) && (lc(a, b) == 0 <==> lc(b, a) == 0))
    && (forall a, b, c :: lc(a, b) <= 0 && lc(b, c) <= 0 ==> lc(a, c) <= 0)
  }

  predicate IsNameOrder(order: string)
  {
    order == "nameAsc" || order == "nameDesc"
  }

  /** The comparator of the page's sort for the selected `sortOrder`;
      any other key compares everything as equal. */
  function Compare(order: string, lc: NameOrder, a: Country, b: Country): int
  {
    match order
    case "nameAsc" => lc(a.common, b.common)
    case "nameDesc" => lc(b.common, a.common)
    case "popAsc" => a.population - b.population
    case "popDesc" => b.population - a.population
    case _ => 0
  }

  /** Only the name orders consult `localeCompare`, so only they need it
      consistent. */
  ghost predicate ValidComparator(order: string, lc: NameOrder)
  {
    IsNameOrder(order) ==> ConsistentNameOrder(lc)
  }

  lemma CompareAntisymmetric(order: string, lc: NameOrder, a: Country, b: Country)
    requires ValidComparator(order, lc)
    ensures Compare(order, lc, a, b) > 0 ==> Compare(order, lc, b, a) < 0
    ensures Compare(order, lc, a, b) < 0 ==> Compare(order, lc, b, a) > 0
    ensures Compare(order, lc, a, b) == 0 <==> Compare(order, lc, b, a) == 0
  {
  }

  lemma CompareTransitive(order: string, lc: NameOrder, a: Country, b: Country, c: Country)
    requires ValidComparator(order, lc)
    requires Compare(order, lc, a, b) <= 0 && Compare(order, lc, b, c) <= 0
    ensures Compare(order, lc, a, c) <= 0
  {
    if order == "nameDesc" {
      assert lc(c.common, b.common) <= 0 && lc(b.common, a.common) <= 0;
    }
  }

  ghost predicate Sorted(s: seq<Country>, order: string, lc: NameOrder)
  {
    forall i, j :: 0 <= i < j < |s| ==> Compare(order, lc, s[i], s[j]) <= 0
  }

  /** Inserts `x` before the first element it does not compare above, so
      it stays ahead of the elements it ties with. */
  function Insert(x: Country, l: seq<Country>, order: string, lc: NameOrder): (r: seq<Country>)
    ensures multiset(r) == multiset(l) + multiset{x}
  {
    if |l| == 0 then [x]
    else if Compare(order, lc, x, l[0]) <= 0 then [x] + l
    else
      assert l == [l[0]] + l[1..];
      [l[0]] + Insert(x, l[1..], order, lc)
  }

  /** The sort step of `filteredCountries`: a stable sort, as
      `Array.prototype.sort` is required to be. */
  function SortCountries(s: seq<Country>, order: string, lc: NameOrder): (r: seq<Country>)
    ensures multiset(r) == multiset(s)
  {
    if |s| == 0 then []
    else
      assert s == [s[0]] + s[1..];
      Insert(s[0], SortCountries(s[1..], order, lc), order, lc)
  }

  /** An element that compares no higher than every element of a sorted
      list can head it. */
  lemma SortedCons(h: Country, t: seq<Country>, order: string, lc: NameOrder)
    requires Sorted(t, order, lc)
    requires forall k :: 0 <= k < |t| ==> Compare(order, lc, h, t[k]) <= 0
    ensures Sorted([h] + t, order, lc)
  {
    var r := [h] + t;
    forall i, j | 0 <= i < j < |r|
      ensures Compare(order, lc, r[i], r[j]) <= 0
    {
      if i == 0 {
        assert r[j] == t[j - 1];
      } else {
        assert r[i] == t[i - 1] && r[j] == t[j - 1];
      }
    }
  }

  lemma {:induction false} InsertSorted(x: Country, l: seq<Country>, order: string, lc: NameOrder)
    requires ValidComparator(order, lc)
    requires Sorted(l, order, lc)
    ensures Sorted(Insert(x, l, order, lc), order, lc)
    decreases |l|
  {
    if |l| == 0 {
    } else if Compare(order, lc, x, l[0]) <= 0 {
      forall j | 0 <= j < |l|
        ensures Compare(order, lc, x, l[j]) <= 0
      {
        if j > 0 {
          CompareTransitive(order, lc, x, l[0], l[j]);
        }
      }
      SortedCons(x, l, order, lc);
    } else {
      var tail := Insert(x, l[1..], order, lc);
      assert Sorted(l[1..], order, lc);
      InsertSorted(x, l[1..], order, lc);
      CompareAntisymmetric(order, lc, x, l[0]);
      forall k | 0 <= k < |tail|
        ensures Compare(order, lc, l[0], tail[k]) <= 0
      {
        assert tail[k] in multiset(tail);
        if tail[k] != x {
          assert tail[k] in multiset(l[1..]);
          var j :| 0 <= j < |l[1..]| && l[1..][j] == tail[k];
          assert l[j + 1] == tail[k];
        }
      }
      SortedCons(l[0], tail, order, lc);
    }
  }

  /** The result is ordered by the comparator of the selected sort order. */
  lemma {:induction false} SortIsSorted(s: seq<Country>, order: string, lc: NameOrder)
    requires ValidComparator(order, lc)
    ensures Sorted(SortCountries(s, order, lc), order, lc)
  {
    if |s| > 0 {
      SortIsSorted(s[1..], order, lc);
      InsertSorted(s[0], SortCountries(s[1..], order, lc), order, lc);
    }
  }

  /** With an unrecognised key all elements tie, so the stable sort keeps
      the filtered order. */
  lemma {:induction false} UnknownOrderKeepsOrder(s: seq<Country>, order: string, lc: NameOrder)
    requires order !in {"nameAsc", "nameDesc", "popAsc", "popDesc"}
    ensures SortCountries(s, order, lc) == s
  {
    if |s| > 0 {
      UnknownOrderKeepsOrder(s[1..], order, lc);
      assert [s[0]] + s[1..] == s;
    }
  }

  // ---------------------------------------------------------------------
  // The derived list

  /** What the page shows: a loading placeholder while the list is empty,
      otherwise the cards of the filtered and sorted countries. */
  datatype ListView = Loading | Cards(countries: seq<Country>)

  function ListPage(countries: seq<Country>, term: string, order: string, lc: NameOrder): (v: ListView)
    ensures v.Loading? <==> |countries| == 0
    ensures v.Cards? ==> multiset(v.countries) == multiset(SearchCountries(countries, term))
  {
    if |countries| == 0 then Loading
    else Cards(SortCountries(SearchCountries(countries, term), order, lc))
  }

  /** What sortedness under each sort key means for the cards: population
      non-decreasing or non-increasing, common names ascending or
      descending under `localeCompare`. */
  lemma SortedMeaning(cards: seq<Country>, order: string, lc: NameOrder)
    requires Sorted(cards, order, lc)
    ensures order == "popAsc" ==>
      forall i, j :: 0 <= i < j < |cards| ==> cards[i].population <= cards[j].population
    ensures order == "popDesc" ==>
      forall i, j :: 0 <= i < j < |cards| ==> cards[i].population >= cards[j].population
    ensures order == "nameAsc" ==>
      forall i, j :: 0 <= i < j < |cards| ==> lc(cards[i].common, cards[j].common) <= 0
    ensures order == "nameDesc" ==>
      forall i, j :: 0 <= i < j < |cards| ==> lc(cards[j].common, cards[i].common) <= 0
  {
    forall i, j | 0 <= i < j < |cards|
      ensures Compare(order, lc, cards[i], cards[j]) <= 0
    {
    }
  }

  /** Every card shows a country of the list whose common name contains
      the search term, and the cards are in the selected order. */
  lemma {:induction false} ListPageCards(countries: seq<Country>, term: string, order: string, lc: NameOrder)
    requires |countries| > 0
    requires ValidComparator(order, lc)
    ensures var cards := ListPage(countries, term, order, lc).countries;
      && (forall i :: 0 <= i < |cards| ==>
            cards[i] in countries && IsSubstring(Lower(term), Lower(cards[i].common)))
      && Sorted(cards, order, lc)
  {
    var found := SearchCountries(countries, term);
    var cards := SortCountries(found, order, lc);
    SortIsSorted(found, order, lc);
    forall i | 0 <= i < |cards|
      ensures cards[i] in countries && IsSubstring(Lower(term), Lower(cards[i].common))
    {
      assert cards[i] in multiset(found);
      var k :| 0 <= k < |found| && found[k] == cards[i];
    }
  }

  /** With an empty search and an unrecognised order the page lists the
      countries exactly as stored. */
  lemma ListPageIdentity(countries: seq<Country>, order: string, lc: NameOrder)
    requires |countries| > 0
    requires order !in {"nameAsc", "nameDesc", "popAsc", "popDesc"}
    ensures ListPage(countries, "", order, lc) == Cards(countries)
  {
    EmptySearchKeepsAll(countries);
    UnknownOrderKeepsOrder(countries, order, lc);
  }

  // ---------------------------------------------------------------------
  // Slugs

  /** `replace(/\s+/g, "-")`, scanning left to right: the first
      whitespace character of a run becomes "-", the rest of the run is
      dropped. `inRun` says the previous character was whitespace. */
  function Collapse(s: string, inRun: bool): string
    decreases |s|
  {
    if |s| == 0 then "" else Step(s[0], inRun) + Collapse(s[1..], IsWhitespace(s[0]))
  }

  /** What one character contributes to the collapsed string. */
  function Step(c: char, inRun: bool): (r: string)
    ensures |r| <= 1
    ensures |r| == 1 ==> !IsWhitespace(r[0]) && (!IsUpper(c) ==> !IsUpper(r[0]))
  {
    if !IsWhitespace(c) then [c] else if inRun then "" else "-"
  }

  /** The collapsed string contains no whitespace, is no longer than its
      input, and gains no upper-case letters. */
  lemma {:induction false} CollapseClean(s: string, inRun: bool)
    ensures |Collapse(s, inRun)| <= |s|
    ensures forall i :: 0 <= i < |Collapse(s, inRun)| ==> !IsWhitespace(Collapse(s, inRun)[i])
    ensures (forall i :: 0 <= i < |s| ==> !IsUpper(s[i])) ==>
      forall i :: 0 <= i < |Collapse(s, inRun)| ==> !IsUpper(Collapse(s, inRun)[i])
    decreases |s|
  {
    if |s| > 0 {
      CollapseClean(s[1..], IsWhitespace(s[0]));
      var x, y := Step(s[0], inRun), Collapse(s[1..], IsWhitespace(s[0]));
      assert Collapse(s, inRun) == x + y;
      assert forall i :: 0 <= i < |x + y| ==> (x + y)[i] == if i < |x| then x[i] else y[i - |x|];
    }
  }

  /** The slug `handleCountryClick` navigates to (before URI encoding). */
  function Slug(name: string): (r: string)
    ensures |r| <= |name|
    ensures forall i :: 0 <= i < |r| ==> !IsWhitespace(r[i]) && !IsUpper(r[i])
  {
    CollapseClean(Lower(name), false);
    Collapse(Lower(name), false)
  }

  predicate AllWhitespace(s: string)
  {
    forall i :: 0 <= i < |s| ==> IsWhitespace(s[i])
  }

  /** Whether a scan is inside a whitespace run after reading `s`. */
  function EndsInRun(s: string, inRun: bool): bool
  {
    if |s| == 0 then inRun else IsWhitespace(s[|s| - 1])
  }

  /** Collapsing a concatenation collapses the second part in the state
      the first part leaves the scan in. */
  lemma {:induction false} CollapseAppend(a: string, b: string, inRun: bool)
    ensures Collapse(a + b, inRun) == Collapse(a, inRun) + Collapse(b, EndsInRun(a, inRun))
    decreases |a|
  {
    if |a| == 0 {
      assert a + b == b;
    } else {
      var w := IsWhitespace(a[0]);
      var x, y, z := Step(a[0], inRun), Collapse(a[1..], w), Collapse(b, EndsInRun(a[1..], w));
      assert Collapse(a + b, inRun) == x + (y + z) by {
        CollapseCons(a, b, inRun);
        CollapseAppend(a[1..], b, w);
      }
      assert Collapse(a, inRun) == x + y by {
        CollapseCons(a, b, inRun);
      }
      assert z == Collapse(b, EndsInRun(a, inRun)) by {
        EndsInRunCons(a, inRun);
      }
      assert x + (y + z) == (x + y) + z;
    }
  }

  /** The first step of collapsing `a + b` for a non-empty `a`. */
  lemma CollapseCons(a: string, b: string, inRun: bool)
    requires |a| > 0
    ensures Collapse(a + b, inRun) == Step(a[0], inRun) + Collapse(a[1..] + b, IsWhitespace(a[0]))
    ensures Collapse(a, inRun) == Step(a[0], inRun) + Collapse(a[1..], IsWhitespace(a[0]))
  {
    assert (a + b)[0] == a[0];
    assert (a + b)[1..] == a[1..] + b;
  }

  lemma EndsInRunCons(a: string, inRun: bool)
    requires |a| > 0
    ensures EndsInRun(a[1..], IsWhitespace(a[0])) == EndsInRun(a, inRun)
  {
  }

  /** A non-empty whitespace run collapses to one "-", or to nothing when
      it continues a run. */
  lemma {:induction false} CollapseRun(run: string, inRun: bool)
    requires AllWhitespace(run) && |run| > 0
    ensures Collapse(run, inRun) == if inRun then "" else "-"
    decreases |run|
  {
    if |run| > 1 {
      CollapseRun(run[1..], true);
    }
  }

  /** Text that does not start with whitespace collapses the same whether
      or not a run preceded it. */
  lemma CollapseAfterRun(s: string)
    requires |s| == 0 || !IsWhitespace(s[0])
    ensures Collapse(s, true) == Collapse(s, false)
  {
  }

  lemma LowerAppend(a: string, b: string)
    ensures Lower(a + b) == Lower(a) + Lower(b)
  {
  }

  /** A name without whitespace is only lowered. */
  lemma {:induction false} SlugOfWord(name: string)
    requires forall i :: 0 <= i < |name| ==> !IsWhitespace(name[i])
    ensures Slug(name) == Lower(name)
  {
    CollapseWord(Lower(name));
  }

  lemma {:induction false} CollapseWord(s: string)
    requires forall i :: 0 <= i < |s| ==> !IsWhitespace(s[i])
    ensures Collapse(s, false) == s
    decreases |s|
  {
    if |s| > 0 {
      CollapseWord(s[1..]);
      assert [s[0]] + s[1..] == s;
    }
  }

  /** A maximal whitespace run between two parts becomes exactly one "-". */
  lemma {:induction false} SlugOfRun(a: string, run: string, b: string)
    requires |run| > 0 && AllWhitespace(run)
    requires |a| == 0 || !IsWhitespace(a[|a| - 1])
    requires |b| == 0 || !IsWhitespace(b[0])
    ensures Slug(a + run + b) == Slug(a) + "-" + Slug(b)
  {
    var la, lb := Lower(a), Lower(b);
    assert Lower(a + run + b) == la + run + lb by {
      assert Lower(run) == run;
      LowerAppend(a + run, b);
      LowerAppend(a, run);
    }
    assert !EndsInRun(la, false) by {
      if |a| > 0 {
        assert la[|la| - 1] == LowerChar(a[|a| - 1]);
      }
    }
    assert EndsInRun(la + run, false) by {
      assert (la + run)[|la + run| - 1] == run[|run| - 1];
    }
    assert Collapse(lb, true) == Collapse(lb, false) by {
      CollapseAfterRun(lb);
    }
    calc {
      Slug(a + run + b);
      Collapse(la + run + lb, false);
      { CollapseAppend(la + run, lb, false); }
      Collapse(la + run, false) + Collapse(lb, true);
      { CollapseAppend(la, run, false); CollapseRun(run, false); }
      Collapse(la, false) + "-" + Collapse(lb, false);
    }
  }
}
