/**
 * The content of an export artifact as a function of the fetched property
 * list: the logical lines of the PDF and the row objects of the CSV.
 * Page layout (font sizes, alignment, blank lines) and CSV quoting belong to
 * the rendering libraries and are not part of this model.
 */
module ExportArtifacts {
  import opened Wrappers
  import Decimal

  /** The two address sub-fields the export reads; both may be missing. */
  datatype Address = Address(street: Option<string>, country: Option<string>)

  /** A property document as the data source returns it (only the fields exported). */
  datatype Property = Property(
    address: Option<Address>,
    purchasePrice: Option<int>,
    currentValue: Option<int>,
    status: Option<string>,
    propertyType: Option<string>)

  /** `prop.address?.street || ''` */
  function StreetText(p: Property): (s: string)
    ensures p.address.None? || p.address.value.street.None? ==> s == ""
    ensures p.address.Some? && p.address.value.street.Some? ==> s == p.address.value.street.value
  {
    match p.address
    case None => ""
    case Some(a) => a.street.GetOr("")
  }

  /** `prop.address?.country || ''` */
  function CountryText(p: Property): (s: string)
    ensures p.address.None? || p.address.value.country.None? ==> s == ""
    ensures p.address.Some? && p.address.value.country.Some? ==> s == p.address.value.country.value
  {
    match p.address
    case None => ""
    case Some(a) => a.country.GetOr("")
  }

  /** A missing Number interpolated into a template literal reads "undefined". */
  function ShowNumber(v: Option<int>): string {
    match v
    case None => "undefined"
    case Some(n) => Decimal.IntToDecimal(n)
  }

  /** A missing string interpolated into a template literal reads "undefined". */
  function ShowText(v: Option<string>): string {
    match v
    case None => "undefined"
    case Some(s) => s
  }

  /**
   * One logical line of the PDF: the document title, the numbered heading of a
   * property's block, or a labelled field ("Label: value").
   */
  datatype PdfLine = Title | Heading(number: nat) | Field(caption: string, value: string)

  /** The text a line shows on the page. */
  function LineText(line: PdfLine): string {
    match line
    case Title => "Property Export"
    case Heading(n) => "Property #" + Decimal.NatToDecimal(n)
    case Field(caption, value) => caption + ": " + value
  }

  /** The seven lines written for the property at zero-based position `idx`. */
  function PropertyBlock(idx: nat, p: Property): (lines: seq<PdfLine>)
    ensures |lines| == 7
  {
    [ Heading(idx + 1),
      Field("Address", StreetText(p)),
      Field("Country", CountryText(p)),
      Field("Purchase Price", ShowNumber(p.purchasePrice)),
      Field("Current Value", ShowNumber(p.currentValue)),
      Field("Status", ShowText(p.status)),
      Field("Property Type", ShowText(p.propertyType)) ]
  }

  /** The blocks of all properties, in input order. */
  function PdfBlocks(ps: seq<Property>): (lines: seq<PdfLine>)
    ensures |lines| == 7 * |ps|
    decreases |ps|
  {
    if ps == [] then [] else PdfBlocks(ps[..|ps| - 1]) + PropertyBlock(|ps| - 1, ps[|ps| - 1])
  }

  /** Every text line of the PDF document, in the order it is written. */
  function PdfLines(ps: seq<Property>): seq<PdfLine> {
    [Title] + PdfBlocks(ps)
  }

  /** Block `i` occupies lines `7 * i` to `7 * i + 7` of the blocks. */
  lemma {:induction false} PdfBlockAt(ps: seq<Property>, i: nat)
    requires i < |ps|
    ensures 7 * i + 7 <= |PdfBlocks(ps)|
    ensures PdfBlocks(ps)[7 * i .. 7 * i + 7] == PropertyBlock(i, ps[i])
    decreases |ps|
  {
    var init := ps[..|ps| - 1];
    var last := PropertyBlock(|ps| - 1, ps[|ps| - 1]);
    assert PdfBlocks(ps) == PdfBlocks(init) + last;
    if i < |ps| - 1 {
      PdfBlockAt(init, i);
      assert init[i] == ps[i];
      assert PdfBlocks(ps)[7 * i .. 7 * i + 7] == PdfBlocks(init)[7 * i .. 7 * i + 7];
    } else {
      assert 7 * i == |PdfBlocks(init)|;
    }
  }

  /** The document is the title, then one seven-line block per property, in input order. */
  lemma PdfLayout(ps: seq<Property>)
    ensures |PdfLines(ps)| == 1 + 7 * |ps|
    ensures PdfLines(ps)[0] == Title
    ensures forall i :: 0 <= i < |ps| ==> PdfLines(ps)[1 + 7 * i .. 8 + 7 * i] == PropertyBlock(i, ps[i])
  {
    forall i | 0 <= i < |ps|
      ensures PdfLines(ps)[1 + 7 * i .. 8 + 7 * i] == PropertyBlock(i, ps[i])
    {
      PdfBlockAt(ps, i);
      assert PdfLines(ps)[1 + 7 * i .. 8 + 7 * i] == PdfBlocks(ps)[7 * i .. 7 * i + 7];
    }
  }

  /** Writes the title, then each property's block, one property at a time. */
  method RenderPdf(ps: seq<Property>) returns (lines: seq<PdfLine>)
    ensures lines == PdfLines(ps)
  {
    lines := [Title];
    var idx := 0;
    while idx < |ps|
      invariant 0 <= idx <= |ps|
      invariant lines == [Title] + PdfBlocks(ps[..idx])
    {
      ghost var done := ps[..idx + 1];
      assert done[..idx] == ps[..idx] && done[idx] == ps[idx];
      assert PdfBlocks(done) == PdfBlocks(ps[..idx]) + PropertyBlock(idx, ps[idx]);
      lines := lines + PropertyBlock(idx, ps[idx]);
      idx := idx + 1;
    }
    assert ps[..|ps|] == ps;
  }

  /** One CSV row object; the numeric and status columns carry the raw field values. */
  datatype CsvRow = CsvRow(
    Address: string,
    Country: string,
    PurchasePrice: Option<int>,
    CurrentValue: Option<int>,
    Status: Option<string>,
    PropertyType: Option<string>)

  function CsvRowOf(p: Property): CsvRow {
    CsvRow(StreetText(p), CountryText(p), p.purchasePrice, p.currentValue, p.status, p.propertyType)
  }

  /** Writes one row per property into the CSV stream, in input order. */
  method WriteCsvRows(ps: seq<Property>) returns (rows: seq<CsvRow>)
    ensures |rows| == |ps|
    ensures forall i :: 0 <= i < |ps| ==> rows[i] == CsvRowOf(ps[i])
  {
    rows := [];
    var idx := 0;
    while idx < |ps|
      invariant 0 <= idx <= |ps|
      invariant |rows| == idx
      invariant forall i :: 0 <= i < idx ==> rows[i] == CsvRowOf(ps[i])
    {
      rows := rows + [CsvRowOf(ps[idx])];
      idx := idx + 1;
    }
  }

  /** Both formats show the same address and country for the property at each position. */
  lemma PdfAgreesWithCsv(ps: seq<Property>, rows: seq<CsvRow>, i: nat)
    requires |rows| == |ps| && forall j :: 0 <= j < |ps| ==> rows[j] == CsvRowOf(ps[j])
    requires i < |ps|
    ensures PdfLines(ps)[2 + 7 * i] == Field("Address", rows[i].Address)
    ensures PdfLines(ps)[3 + 7 * i] == Field("Country", rows[i].Country)
  {
    PdfBlockAt(ps, i);
    assert PdfLines(ps)[2 + 7 * i] == PdfBlocks(ps)[7 * i .. 7 * i + 7][1];
    assert PdfLines(ps)[3 + 7 * i] == PdfBlocks(ps)[7 * i .. 7 * i + 7][2];
  }

  /** Line `1 + 7 * i + k` of the document is line `k` of property `i`'s block. */
  lemma PdfLineAt(ps: seq<Property>, i: nat, k: nat)
    requires i < |ps| && k < 7
    ensures 1 + 7 * i + k < |PdfLines(ps)|
    ensures PdfLines(ps)[1 + 7 * i + k] == PropertyBlock(i, ps[i])[k]
  {
    PdfBlockAt(ps, i);
    var blocks := PdfBlocks(ps);
    assert PdfLines(ps)[1 + 7 * i + k] == blocks[7 * i + k];
    assert blocks[7 * i + k] == blocks[7 * i .. 7 * i + 7][k];
  }

  /** The text of the seven lines of one property's block. */
  lemma PropertyBlockText(idx: nat, p: Property)
    ensures LineText(PropertyBlock(idx, p)[0]) == "Property #" + Decimal.NatToDecimal(idx + 1)
    ensures LineText(PropertyBlock(idx, p)[1]) == "Address" + ": " + StreetText(p)
    ensures LineText(PropertyBlock(idx, p)[2]) == "Country" + ": " + CountryText(p)
    ensures LineText(PropertyBlock(idx, p)[3]) == "Purchase Price" + ": " + ShowNumber(p.purchasePrice)
    ensures LineText(PropertyBlock(idx, p)[4]) == "Current Value" + ": " + ShowNumber(p.currentValue)
    ensures LineText(PropertyBlock(idx, p)[5]) == "Status" + ": " + ShowText(p.status)
    ensures LineText(PropertyBlock(idx, p)[6]) == "Property Type" + ": " + ShowText(p.propertyType)
  {
  }

  /**
   * The text on the page: the title first, then for the property at position
   * `i` the heading `Property #<i+1>` and its six labelled fields.
   */
  lemma PdfBlockText(ps: seq<Property>, i: nat)
    requires i < |ps|
    ensures LineText(PdfLines(ps)[0]) == "Property Export"
    ensures LineText(PdfLines(ps)[1 + 7 * i]) == "Property #" + Decimal.NatToDecimal(i + 1)
    ensures LineText(PdfLines(ps)[2 + 7 * i]) == "Address" + ": " + StreetText(ps[i])
    ensures LineText(PdfLines(ps)[3 + 7 * i]) == "Country" + ": " + CountryText(ps[i])
    ensures LineText(PdfLines(ps)[4 + 7 * i]) == "Purchase Price" + ": " + ShowNumber(ps[i].purchasePrice)
    ensures LineText(PdfLines(ps)[5 + 7 * i]) == "Current Value" + ": " + ShowNumber(ps[i].currentValue)
    ensures LineText(PdfLines(ps)[6 + 7 * i]) == "Status" + ": " + ShowText(ps[i].status)
    ensures LineText(PdfLines(ps)[7 + 7 * i]) == "Property Type" + ": " + ShowText(ps[i].propertyType)
  {
    var p := ps[i];
    assert LineText(PdfLines(ps)[1 + 7 * i]) == "Property #" + Decimal.NatToDecimal(i + 1)
      by { PdfLineAt(ps, i, 0); PropertyBlockText(i, p); }
    assert LineText(PdfLines(ps)[2 + 7 * i]) == "Address" + ": " + StreetText(p)
      by { PdfLineAt(ps, i, 1); PropertyBlockText(i, p); }
    assert LineText(PdfLines(ps)[3 + 7 * i]) == "Country" + ": " + CountryText(p)
      by { PdfLineAt(ps, i, 2); PropertyBlockText(i, p); }
    assert LineText(PdfLines(ps)[4 + 7 * i]) == "Purchase Price" + ": " + ShowNumber(p.purchasePrice)
      by { PdfLineAt(ps, i, 3); PropertyBlockText(i, p); }
    assert LineText(PdfLines(ps)[5 + 7 * i]) == "Current Value" + ": " + ShowNumber(p.currentValue)
      by { PdfLineAt(ps, i, 4); PropertyBlockText(i, p); }
    assert LineText(PdfLines(ps)[6 + 7 * i]) == "Status" + ": " + ShowText(p.status)
      by { PdfLineAt(ps, i, 5); PropertyBlockText(i, p); }
    assert LineText(PdfLines(ps)[7 + 7 * i]) == "Property Type" + ": " + ShowText(p.propertyType)
      by { PdfLineAt(ps, i, 6); PropertyBlockText(i, p); }
  }
}
