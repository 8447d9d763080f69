/**
 * The price predictor page: the form's selections become a one-row feature
 * table, the table's columns are aligned with those the pipeline was trained
 * on, and the pipeline's estimate is widened into a price band.
 */
module PricePredictor {
  import opened Wrappers
  import opened Sequences

  /** A cell of the feature table: a category label or a number. */
  datatype Cell = Text(text: string) | Int(whole: int) | Float(number: real)

  /** The twelve selections of the form. The categorical and count fields
      hold whatever value the dataset offered for them. */
  datatype FormInput = FormInput(
    propertyType: Cell,
    sector: Cell,
    bedrooms: Cell,
    bathrooms: Cell,
    balconies: Cell,
    propertyAge: Cell,
    builtUpArea: real,
    servantRoom: int,
    storeRoom: int,
    furnishingType: Cell,
    luxuryCategory: Cell,
    floorCategory: Cell)

  /** A one-row table: its column names in order and the cell under each. */
  datatype Frame = Frame(columns: seq<string>, cells: map<string, Cell>)

  /** The frame has a cell for exactly the names among its columns. */
  predicate Consistent(f: Frame) {
    (forall c :: c in f.cells ==> c in f.columns) &&
    (forall c :: c in f.columns ==> c in f.cells)
  }

  /** The column names of the record, in the order the page writes them. */
  const FeatureKeys: seq<string> := [
    "property_type", "sector", "bedRoom", "bathroom", "balcony", "agePossession",
    "built_up_area", "servant room", "store room", "furnishing_type",
    "luxury_category", "floor_category"]

  /** The value filled into a column the record lacks. */
  const FillValue: Cell := Int(0)

  /** The one-row table built from the form. Its contents are stated by the
      two lemmas below. */
  function AssembleRecord(input: FormInput): Frame {
    Frame(FeatureKeys, map[
      "property_type" := input.propertyType,
      "sector" := input.sector,
      "bedRoom" := input.bedrooms,
      "bathroom" := input.bathrooms,
      "balcony" := input.balconies,
      "agePossession" := input.propertyAge,
      "built_up_area" := Float(input.builtUpArea),
      "servant room" := Int(input.servantRoom),
      "store room" := Int(input.storeRoom),
      "furnishing_type" := input.furnishingType,
      "luxury_category" := input.luxuryCategory,
      "floor_category" := input.floorCategory])
  }

  /** The record has the twelve columns in the written order, each holding
      the form's selection. */
  lemma AssembledRecordFields(input: FormInput)
    ensures AssembleRecord(input).columns == FeatureKeys
    ensures AssembleRecord(input).cells["property_type"] == input.propertyType
    ensures AssembleRecord(input).cells["sector"] == input.sector
    ensures AssembleRecord(input).cells["bedRoom"] == input.bedrooms
    ensures AssembleRecord(input).cells["bathroom"] == input.bathrooms
    ensures AssembleRecord(input).cells["balcony"] == input.balconies
    ensures AssembleRecord(input).cells["agePossession"] == input.propertyAge
    ensures AssembleRecord(input).cells["built_up_area"] == Float(input.builtUpArea)
    ensures AssembleRecord(input).cells["servant room"] == Int(input.servantRoom)
    ensures AssembleRecord(input).cells["store room"] == Int(input.storeRoom)
    ensures AssembleRecord(input).cells["furnishing_type"] == input.furnishingType
    ensures AssembleRecord(input).cells["luxury_category"] == input.luxuryCategory
    ensures AssembleRecord(input).cells["floor_category"] == input.floorCategory
  {
  }

  /** The record names each of its columns once and has a cell under each. */
  lemma AssembledRecordWellFormed(input: FormInput)
    ensures Consistent(AssembleRecord(input)) && Distinct(AssembleRecord(input).columns)
  {
  }

  /** The frame after the expected columns are filled in and selected. */
  function Aligned(f: Frame, expected: seq<string>): Frame {
    Frame(expected, map c | c in expected :: if c in f.cells then f.cells[c] else FillValue)
  }

  /** Adds each expected column the frame lacks, holding the fill value, then
      keeps exactly the expected columns in the expected order. */
  method AlignColumns(f: Frame, expected: seq<string>) returns (g: Frame)
    requires Consistent(f) && Distinct(f.columns)
    ensures g == Aligned(f, expected)
    ensures g.columns == expected
    ensures forall c :: c in g.cells <==> c in expected
    ensures forall c :: c in expected && c in f.cells ==> g.cells[c] == f.cells[c]
    ensures forall c :: c in expected && c !in f.cells ==> g.cells[c] == FillValue
  {
    var frame := f;
    for i := 0 to |expected|
      invariant Consistent(frame) && Distinct(frame.columns)
      invariant forall c :: c in f.cells ==> c in frame.cells && frame.cells[c] == f.cells[c]
      invariant forall c :: c in frame.cells && c !in f.cells ==> frame.cells[c] == FillValue
      invariant forall k :: 0 <= k < i ==> expected[k] in frame.cells
    {
      var col := expected[i];
      if col !in frame.columns {
        frame := Frame(frame.columns + [col], frame.cells[col := FillValue]);
      }
    }
    g := Frame(expected, map c | c in expected :: frame.cells[c]);
  }

  /** Aligning an aligned frame to the same columns changes nothing. */
  lemma AlignIdempotent(f: Frame, expected: seq<string>)
    ensures Aligned(Aligned(f, expected), expected) == Aligned(f, expected)
  {
  }

  /** Columns outside the expected list do not survive the alignment. */
  lemma AlignDropsUnexpected(f: Frame, expected: seq<string>, c: string)
    requires c in f.cells && c !in expected
    ensures c !in Aligned(f, expected).cells && c !in Aligned(f, expected).columns
  {
  }

  /** The table handed to the pipeline: aligned when it names its columns. */
  function Features(input: FormInput, expected: Option<seq<string>>): Frame {
    match expected
    case None => AssembleRecord(input)
    case Some(cols) => Aligned(AssembleRecord(input), cols)
  }

  method PrepareFeatures(input: FormInput, expected: Option<seq<string>>) returns (f: Frame)
    ensures f == Features(input, expected)
    ensures expected.Some? ==> f.columns == expected.value
    ensures expected.None? ==> f.columns == FeatureKeys
  {
    f := AssembleRecord(input);
    AssembledRecordWellFormed(input);
    if expected.Some? {
      f := AlignColumns(f, expected.value);
    }
  }

  // ---------------------------------------------------------------------------
  // Price band
  // ---------------------------------------------------------------------------

  const LowFactor: real := 0.78
  const HighFactor: real := 1.22

  datatype PriceBand = PriceBand(low: real, high: real)

  /** The band from 78% to 122% of the estimate, which contains the estimate
      when it is not negative. */
  function Band(price: real): (b: PriceBand)
    ensures price >= 0.0 ==> b.low <= price <= b.high
    ensures price < 0.0 ==> b.high < price < b.low
    ensures b.high - b.low == 0.44 * price
  {
    PriceBand(LowFactor * price, HighFactor * price)
  }

  function Midpoint(b: PriceBand): real {
    (b.low + b.high) / 2.0
  }

  /** The band loses nothing of the estimate: its midpoint is the estimate. */
  lemma BandMidpointRoundTrip(price: real)
    ensures Midpoint(Band(price)) == price
  {
  }

  /** The trained pipeline: the columns it names, if it names them, and its
      estimate on a table (already on the linear price scale), which may fail. */
  datatype Pipeline = Pipeline(
    featureNames: Option<seq<string>>,
    predict: Frame -> Result<real, string>)

  /** The page's prediction step: assemble and align the record, estimate,
      and widen the estimate into the band; a failure of the pipeline is
      reported instead of a band. */
  method EstimatePriceRange(input: FormInput, pipeline: Pipeline) returns (r: Result<PriceBand, string>)
    ensures var outcome := pipeline.predict(Features(input, pipeline.featureNames));
      (r.Failure? <==> outcome.Failure?) &&
      (outcome.Failure? ==> r.error == outcome.error) &&
      (outcome.Success? ==> r.value == Band(outcome.value))
  {
    var f := PrepareFeatures(input, pipeline.featureNames);
    var outcome := pipeline.predict(f);
    match outcome {
      case Failure(e) => r := Failure(e);
      case Success(price) => r := Success(Band(price));
    }
  }
}
