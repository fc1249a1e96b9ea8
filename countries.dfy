/** The country filter: the list of countries offered in the drop-down and
    which bubbles turn red when one is chosen. */
module CountryFilter {
  import opened Sequences
  import opened Aggregation

  /** The two fills a bubble can have. */
  datatype Fill = Red | SteelBlue

  /** `data.map(d => d.country)`. */
  function Countries(data: seq<Summary>): (cs: seq<string>)
    ensures |cs| == |data|
    ensures forall i :: 0 <= i < |data| ==> cs[i] == data[i].country
  {
    seq(|data|, i requires 0 <= i < |data| => data[i].country)
  }

  /** The countries of the summaries, each once, in order of first appearance. */
  function UniqueCountries(data: seq<Summary>): (r: seq<string>)
    ensures NoDuplicates(r)
    ensures forall c :: c in r <==> exists i :: 0 <= i < |data| && data[i].country == c
  {
    var r := Dedup(Countries(data));
    assert forall c :: c in Countries(data) <==> exists i :: 0 <= i < |data| && data[i].country == c by {
      forall c | c in Countries(data)
        ensures exists i :: 0 <= i < |data| && data[i].country == c
      {
        var i :| 0 <= i < |data| && Countries(data)[i] == c;
      }
    }
    r
  }

  /** The select's options: the "All countries" entry, whose value is the
      empty string, followed by the unique countries. */
  function FilterOptions(data: seq<Summary>): (options: seq<string>)
    ensures |options| == |UniqueCountries(data)| + 1
    ensures options[0] == "" && options[1..] == UniqueCountries(data)
  {
    [""] + UniqueCountries(data)
  }

  /** The fill a bubble gets once `selectedCountry` is chosen. */
  function BubbleFill(d: Summary, selectedCountry: string): (fill: Fill)
    ensures fill == Red <==> d.country == selectedCountry
    ensures selectedCountry == "" && d.country != "" ==> fill == SteelBlue
  {
    if d.country == selectedCountry then Red else SteelBlue
  }

  /** The unique countries keep the order in which they first appear. */
  lemma UniqueCountriesInFirstAppearanceOrder(data: seq<Summary>)
    ensures forall i, j :: 0 <= i < j < |UniqueCountries(data)| ==>
      FirstIndex(Countries(data), UniqueCountries(data)[i]) < FirstIndex(Countries(data), UniqueCountries(data)[j])
  {
    DedupKeepsFirstOccurrenceOrder(Countries(data));
  }

  /** Choosing a value turns some bubble red exactly when it is one of the
      listed countries. */
  lemma SomeBubbleRedIffListed(data: seq<Summary>, selectedCountry: string)
    ensures (exists i :: 0 <= i < |data| && BubbleFill(data[i], selectedCountry) == Red)
      <==> selectedCountry in UniqueCountries(data)
  {
    if selectedCountry in UniqueCountries(data) {
      var i :| 0 <= i < |data| && data[i].country == selectedCountry;
      assert BubbleFill(data[i], selectedCountry) == Red;
    }
  }

  /** Every option after the first turns at least one bubble red; the
      "All countries" option turns none red unless some circuit has an
      empty country name. */
  lemma FilterOptionsHighlight(data: seq<Summary>)
    ensures forall k :: 1 <= k < |FilterOptions(data)| ==>
      exists i :: 0 <= i < |data| && BubbleFill(data[i], FilterOptions(data)[k]) == Red
    ensures (forall i :: 0 <= i < |data| ==> BubbleFill(data[i], FilterOptions(data)[0]) == SteelBlue)
      <==> "" !in UniqueCountries(data)
  {
    var options := FilterOptions(data);
    forall k | 1 <= k < |options|
      ensures exists i :: 0 <= i < |data| && BubbleFill(data[i], options[k]) == Red
    {
      assert options[k] == UniqueCountries(data)[k - 1];
      SomeBubbleRedIffListed(data, options[k]);
    }
    SomeBubbleRedIffListed(data, "");
  }
}
