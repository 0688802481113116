/** The `ColorSearcher` component's state and the handlers that change it:
    the palette load, the search box, the search (`handleClick`) and the
    "Show all colors" button. Rendering, focus handling and the network
    fetch itself are outside the model. */
module Searcher {
  import opened HexColor
  import opened ColorInput
  import opened Ranking

  /** A palette entry as the colour data source delivers it. */
  datatype RawColor = RawColor(color: string, hex: string)

  /** Every stored `rgb` column is what `hexToRgb` makes of the entry's hex
      code, as the loader computes it. */
  predicate RgbMatchesHex(records: seq<ColorRecord>)
    requires WellFormedPalette(records)
  {
    forall i :: 0 <= i < |records| ==> records[i].rgb == HexToRgb(records[i].hex)
  }

  /** The `map` in the palette load: each raw entry with its `rgb` and
      `hsl` columns. The `hsl` column comes from `hexToHsl`, which is not
      part of this model, and is passed in. */
  function Annotate(raw: seq<RawColor>, hsl: seq<string>): (records: seq<ColorRecord>)
    requires |hsl| == |raw|
    requires forall i :: 0 <= i < |raw| ==> WellFormedHex(raw[i].hex)
    ensures |records| == |raw| && WellFormedPalette(records) && RgbMatchesHex(records)
    ensures forall i :: 0 <= i < |raw| ==>
      records[i].color == raw[i].color && records[i].hex == raw[i].hex && records[i].hsl == hsl[i]
    ensures forall i :: 0 <= i < |raw| ==> IsByteRgb(records[i].rgb)
  {
    seq(|raw|, i requires 0 <= i < |raw| => ColorRecord(raw[i].color, raw[i].hex, HexToRgb(raw[i].hex), hsl[i]))
  }

  /** The palette records of a ranking, in ranking order: the columns the
      table shows. */
  function Entries(ranked: seq<Ranked>): (records: seq<ColorRecord>)
    ensures |records| == |ranked| && forall i :: 0 <= i < |ranked| ==> records[i] == ranked[i].entry
  {
    seq(|ranked|, i requires 0 <= i < |ranked| => ranked[i].entry)
  }

  /** On a loaded palette, recomputing a distance from an entry's hex code
      gives the same number as using its stored `rgb` column. */
  lemma LoadedDistancesMatchStoredRgb(input: Rgb, palette: seq<ColorRecord>)
    requires WellFormedPalette(palette) && RgbMatchesHex(palette)
    ensures var r := ClosestColors(input, palette);
      forall k :: 0 <= k < |r| ==> r[k].distance == SquaredDistance(input, r[k].entry.rgb)
  {
    ClosestAreUnchangedEntries(input, palette);
    var r := ClosestColors(input, palette);
    forall k | 0 <= k < |r| ensures r[k].distance == SquaredDistance(input, r[k].entry.rgb) {
      var i :| 0 <= i < |palette| && palette[i] == r[k].entry;
    }
  }

  class ColorSearcher {
    /** The search box's text. */
    var colorToSearch: string
    /** Whether the table shows search results rather than all colours. */
    var buttonClicked: bool
    /** The loaded palette. */
    var colorData: seq<ColorRecord>
    /** The rows the table shows. */
    var colors: seq<ColorRecord>
    var loading: bool

    /** The palette, once loaded, has decodable hex codes and `rgb`
        columns that match them. */
    ghost predicate Valid()
      reads this
    {
      WellFormedPalette(colorData) && RgbMatchesHex(colorData)
    }

    /** The component's initial state: empty box, nothing loaded yet. */
    constructor ()
      ensures Valid()
      ensures colorToSearch == "" && !buttonClicked && colorData == [] && colors == [] && loading
    {
      colorToSearch := "";
      buttonClicked := false;
      colorData := [];
      colors := [];
      loading := true;
    }

    /** The successful end of the palette fetch: the annotated palette
        becomes both the stored palette and the rows shown. */
    method LoadPalette(raw: seq<RawColor>, hsl: seq<string>)
      requires |hsl| == |raw|
      requires forall i :: 0 <= i < |raw| ==> WellFormedHex(raw[i].hex)
      modifies this
      ensures Valid()
      ensures colorData == Annotate(raw, hsl) && colors == colorData && !loading
      ensures colorToSearch == old(colorToSearch) && buttonClicked == old(buttonClicked)
    {
      var records := Annotate(raw, hsl);
      colors := records;
      colorData := records;
      loading := false;
    }

    /** The search box's `onChange`. */
    method SetColorToSearch(text: string)
      requires Valid()
      modifies this
      ensures Valid()
      ensures colorToSearch == text
      ensures buttonClicked == old(buttonClicked) && colorData == old(colorData)
      ensures colors == old(colors) && loading == old(loading)
    {
      colorToSearch := text;
    }

    /** `handleClick`: parse the search text; on text in neither form,
        return early and leave the table as it is; otherwise rank the
        palette against the parsed colour and show the 100 nearest. */
    method HandleClick() returns (searched: bool)
      requires Valid()
      modifies this
      ensures Valid()
      ensures searched <==> ParseInput(colorToSearch).Some?
      ensures colorToSearch == old(colorToSearch) && colorData == old(colorData) && loading == old(loading)
      ensures !searched ==> colors == old(colors) && buttonClicked == old(buttonClicked)
      ensures searched ==>
        buttonClicked && colors == Entries(ClosestColors(ParseInput(colorToSearch).value, colorData))
    {
      var parsed := ParseInput(colorToSearch);
      if parsed.None? {
        return false;
      }
      buttonClicked := true;
      var data := FilterClosestColors(parsed.value, colorData);
      colors := Entries(data);
      searched := true;
    }

    /** The "Show all colors" button: the whole palette, in palette
        order. */
    method ShowAllColors()
      requires Valid()
      modifies this
      ensures Valid()
      ensures colors == colorData && !buttonClicked
      ensures colorToSearch == old(colorToSearch) && colorData == old(colorData) && loading == old(loading)
    {
      colors := colorData;
      buttonClicked := false;
    }
  }
}
