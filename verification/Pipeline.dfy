/** `process_descriptions`: the per-record enrichment of the scraped
    companies. A data frame is modelled as its column list and its rows,
    each row a map from column name to value. */
module Pipeline {
  import opened Text
  import opened Normalizer
  import opened Keywords
  import opened Entities
  import opened Sentiment

  datatype Frame = Frame(columns: seq<string>, rows: seq<map<string, Value>>)

  const DescriptionColumn: string := "description"
  const KeywordsColumn: string := "keywords"
  const TechnologiesColumn: string := "technologies"
  const SentimentColumn: string := "sentiment"
  const LengthColumn: string := "description_length"

  /** The columns the enrichment writes. */
  const AddedColumns: set<string> := {KeywordsColumn, TechnologiesColumn, SentimentColumn, LengthColumn}

  /** `extract_keywords` is applied with its default `top_n`. */
  const DefaultTopN: int := 10

  /** Every row has exactly the frame's columns. */
  predicate Rectangular(f: Frame) {
    forall i :: 0 <= i < |f.rows| ==> f.rows[i].Keys == ColumnSet(f.columns)
  }

  function ColumnSet(columns: seq<string>): set<string> {
    set c | c in columns
  }

  /** The description cell of a row; a missing cell reads as a missing
      value. */
  function DescriptionOf(row: map<string, Value>): Value {
    if DescriptionColumn in row then row[DescriptionColumn] else Null
  }

  /** The length of a string description; any other value counts as
      zero. */
  function DescriptionLength(d: Value): (r: int)
    ensures r >= 0
    ensures !d.Str? ==> r == 0
    ensures d.Str? ==> r == |d.s|
  {
    if d.Str? then |d.s| else 0
  }

  /** Assigning a column appends it unless it already exists. */
  function AddColumn(columns: seq<string>, c: string): (r: seq<string>)
    ensures c in r
    ensures forall x :: x in r <==> x == c || x in columns
    ensures |columns| <= |r| && columns == r[..|columns|]
    ensures |r| == |columns| + if c in columns then 0 else 1
    ensures NoDuplicates(columns) ==> NoDuplicates(r)
  {
    if c in columns then columns else columns + [c]
  }

  lemma DescriptionNotAdded()
    ensures DescriptionColumn !in AddedColumns
  {
    assert |DescriptionColumn| != |LengthColumn|;
    assert DescriptionColumn[0] != KeywordsColumn[0];
    assert DescriptionColumn[0] != TechnologiesColumn[0];
    assert DescriptionColumn[0] != SentimentColumn[0];
  }

  /** One row with the four derived cells written from its description. */
  function EnrichRow(row: map<string, Value>, env: NlpEnv): (r: map<string, Value>)
    ensures r.Keys == row.Keys + AddedColumns
    ensures forall c :: c in row && c !in AddedColumns ==> r[c] == row[c]
    ensures DescriptionOf(r) == DescriptionOf(row)
    ensures var d := DescriptionOf(row);
            && r[KeywordsColumn] == Str(ExtractKeywords(d, DefaultTopN, env))
            && r[TechnologiesColumn] == Str(ExtractEntities(d))
            && r[SentimentColumn] == Str(AnalyzeSentiment(d).Label())
            && r[LengthColumn] == Int(DescriptionLength(d))
  {
    var d := DescriptionOf(row);
    DescriptionNotAdded();
    WriteCells(row, Str(ExtractKeywords(d, DefaultTopN, env)), Str(ExtractEntities(d)),
               Str(AnalyzeSentiment(d).Label()), Int(DescriptionLength(d)))
  }

  /** The four assignments of the derived columns, in order. */
  function WriteCells(row: map<string, Value>, keywords: Value, technologies: Value,
                      sentiment: Value, length: Value): (r: map<string, Value>)
    ensures r.Keys == row.Keys + AddedColumns
    ensures forall c :: c in row && c !in AddedColumns ==> r[c] == row[c]
    ensures r[KeywordsColumn] == keywords && r[TechnologiesColumn] == technologies
    ensures r[SentimentColumn] == sentiment && r[LengthColumn] == length
  {
    row[KeywordsColumn := keywords][TechnologiesColumn := technologies]
       [SentimentColumn := sentiment][LengthColumn := length]
  }

  /** Where a derived column comes in the order of assignment. */
  function AssignmentRank(c: string): nat {
    if c == KeywordsColumn then 0
    else if c == TechnologiesColumn then 1
    else if c == SentimentColumn then 2
    else 3
  }

  /** The columns after enrichment: the old ones, then each derived column
      that was missing, once, in the order of assignment. */
  function EnrichedColumns(columns: seq<string>): (r: seq<string>)
    ensures forall x :: x in r <==> x in columns || x in AddedColumns
    ensures |columns| <= |r| && columns == r[..|columns|]
    ensures AppendedInOrder(columns, r, 4)
    ensures NoDuplicates(columns) ==> NoDuplicates(r)
  {
    var c1 := AddColumn(columns, KeywordsColumn);
    var c2 := AddColumn(c1, TechnologiesColumn);
    var c3 := AddColumn(c2, SentimentColumn);
    var c4 := AddColumn(c3, LengthColumn);
    assert columns[..|columns|] == columns;
    AddInOrder(columns, columns, KeywordsColumn);
    AddInOrder(columns, c1, TechnologiesColumn);
    AddInOrder(columns, c2, SentimentColumn);
    AddInOrder(columns, c3, LengthColumn);
    c4
  }

  /** `r` is `columns` followed by derived columns that were missing from
      it, in increasing order of assignment and all ranked below `bound`. */
  predicate AppendedInOrder(columns: seq<string>, r: seq<string>, bound: nat) {
    && |columns| <= |r| && columns == r[..|columns|]
    && (forall i :: |columns| <= i < |r| ==> r[i] in AddedColumns && r[i] !in columns && AssignmentRank(r[i]) < bound)
    && (forall i, j :: |columns| <= i < j < |r| ==> AssignmentRank(r[i]) < AssignmentRank(r[j]))
  }

  /** Assigning the next derived column keeps the appended columns in
      order of assignment. */
  lemma AddInOrder(columns: seq<string>, prev: seq<string>, c: string)
    requires c in AddedColumns && AppendedInOrder(columns, prev, AssignmentRank(c))
    ensures AppendedInOrder(columns, AddColumn(prev, c), AssignmentRank(c) + 1)
  {
    if c !in prev {
      var r := AddColumn(prev, c);
      assert r == prev + [c];
      assert r[..|columns|] == prev[..|columns|];
    }
  }

  /** `process_descriptions(df)`: a frame without a description column is
      returned as it is; otherwise every row is enriched, in place and in
      order. */
  function ProcessDescriptions(f: Frame, env: NlpEnv): (r: Frame)
    ensures DescriptionColumn !in f.columns ==> r == f
    ensures |r.rows| == |f.rows|
    ensures DescriptionColumn in f.columns ==>
              && (forall x :: x in r.columns <==> x in f.columns || x in AddedColumns)
              && AppendedInOrder(f.columns, r.columns, 4)
              && (NoDuplicates(f.columns) ==> NoDuplicates(r.columns))
              && forall i :: 0 <= i < |f.rows| ==> r.rows[i] == EnrichRow(f.rows[i], env)
  {
    if DescriptionColumn !in f.columns then f
    else Frame(EnrichedColumns(f.columns), EnrichRows(f.rows, env))
  }

  /** Every row enriched, in order. */
  function EnrichRows(rows: seq<map<string, Value>>, env: NlpEnv): (r: seq<map<string, Value>>)
    ensures |r| == |rows|
    ensures forall i :: 0 <= i < |rows| ==> r[i] == EnrichRow(rows[i], env)
  {
    seq(|rows|, i requires 0 <= i < |rows| => EnrichRow(rows[i], env))
  }

  /** Enrichment keeps a frame rectangular. */
  lemma RectangularKept(f: Frame, env: NlpEnv)
    requires Rectangular(f)
    ensures Rectangular(ProcessDescriptions(f, env))
  {
    var r := ProcessDescriptions(f, env);
    if DescriptionColumn in f.columns {
      EnrichedColumnSet(f.columns);
      forall i | 0 <= i < |r.rows| ensures r.rows[i].Keys == ColumnSet(r.columns) {
        assert r.rows[i] == EnrichRow(f.rows[i], env);
      }
    }
  }

  lemma EnrichedColumnSet(columns: seq<string>)
    ensures ColumnSet(EnrichedColumns(columns)) == ColumnSet(columns) + AddedColumns
  {
  }

  /** Enriching twice is enriching once: the derived cells depend only on
      the description, which the enrichment leaves alone. */
  lemma ProcessIdempotent(f: Frame, env: NlpEnv)
    ensures ProcessDescriptions(ProcessDescriptions(f, env), env) == ProcessDescriptions(f, env)
  {
    var once := ProcessDescriptions(f, env);
    if DescriptionColumn in f.columns {
      assert DescriptionColumn in once.columns;
      EnrichRowsIdempotent(f.rows, env);
      ColumnsSettled(once.columns);
    }
  }

  lemma EnrichRowsIdempotent(rows: seq<map<string, Value>>, env: NlpEnv)
    ensures EnrichRows(EnrichRows(rows, env), env) == EnrichRows(rows, env)
  {
    var once := EnrichRows(rows, env);
    forall i | 0 <= i < |once| ensures EnrichRow(once[i], env) == once[i] {
      EnrichRowIdempotent(rows[i], env);
    }
  }

  lemma EnrichRowIdempotent(row: map<string, Value>, env: NlpEnv)
    ensures EnrichRow(EnrichRow(row, env), env) == EnrichRow(row, env)
  {
    var d := DescriptionOf(row);
    var keywords := Str(ExtractKeywords(d, DefaultTopN, env));
    var technologies := Str(ExtractEntities(d));
    var sentiment := Str(AnalyzeSentiment(d).Label());
    var length := Int(DescriptionLength(d));
    var once := WriteCells(row, keywords, technologies, sentiment, length);
    assert EnrichRow(row, env) == once;
    assert DescriptionOf(once) == d;
    assert EnrichRow(once, env) == WriteCells(once, keywords, technologies, sentiment, length);
    WriteCellsTwice(row, keywords, technologies, sentiment, length);
  }

  lemma WriteCellsTwice(row: map<string, Value>, keywords: Value, technologies: Value,
                        sentiment: Value, length: Value)
    ensures var once := WriteCells(row, keywords, technologies, sentiment, length);
            WriteCells(once, keywords, technologies, sentiment, length) == once
  {
  }

  /** Columns that already hold every added column are left alone. */
  lemma ColumnsSettled(columns: seq<string>)
    requires AddedColumns <= ColumnSet(columns)
    ensures EnrichedColumns(columns) == columns
  {
    assert KeywordsColumn in columns;
    assert TechnologiesColumn in columns;
    assert SentimentColumn in columns;
    assert LengthColumn in columns;
  }
}
