/**
 * CLI_scripts/bin/seed_generator.php: read CSV text, check its header
 * line, turn every non-blank data line into a header-keyed row, normalise
 * each row into an article and keep the published ones up to a limit.
 * Reading the file or standard input, the option parsing and the JSON
 * output are not modelled; the fatal exits are error results.
 */
module SeedGenerator {
  import opened Php

  /** The data errors on which the script exits with status 3. */
  datatype SeedError =
    | EmptyInput
    | MissingHeader(header: string)
    | IncompleteRow(line: int)

  /** One normalised article of the seed output. */
  datatype SeedArticle = SeedArticle(
    id: int, title: string, excerpt: string, views: int, published: bool, author: string)

  /** The required headers, in the order they are checked. */
  const ExpectedHeaders: seq<string> := ["title", "excerpt", "views", "published", "author"]

  // ------------------------------------------------------------- ingestion

  /** The fields of one CSV line, read as a plain comma split. */
  function CsvFields(line: string): (r: seq<string>)
    ensures |r| >= 1
  {
    Explode(',', line)
  }

  /** empty(trim($line)): blank, or "0" once trimmed. */
  predicate IsBlank(line: string)
  {
    IsEmpty(Str(Trim(line)))
  }

  /** $row[$i] ?? '' */
  function Field(fields: seq<string>, i: int): string
  {
    if 0 <= i < |fields| then fields[i] else ""
  }

  /** The first required header absent from the header line, if any. */
  function FirstMissing(expected: seq<string>, headers: seq<string>): (r: Option<string>)
    ensures r.None? <==> forall i :: 0 <= i < |expected| ==> expected[i] in headers
    ensures r.Some? ==> exists i :: 0 <= i < |expected| && expected[i] == r.value &&
                         r.value !in headers && forall j :: 0 <= j < i ==> expected[j] in headers
  {
    if expected == [] then None
    else if expected[0] !in headers then Some(expected[0])
    else
      var r := FirstMissing(expected[1..], headers);
      assert forall i :: 1 <= i < |expected| ==> expected[i] == expected[1..][i - 1];
      r
  }

  /** The last position before n holding header k, or -1. */
  function LastIndex(headers: seq<string>, k: string, n: nat): (r: int)
    requires n <= |headers|
    ensures -1 <= r < n
    ensures r >= 0 ==> headers[r] == k && forall j :: r < j < n ==> headers[j] != k
    ensures r == -1 ==> forall j :: 0 <= j < n ==> headers[j] != k
  {
    if n == 0 then -1
    else if headers[n - 1] == k then n - 1
    else LastIndex(headers, k, n - 1)
  }

  /** The row built by assigning the first n headers in turn. */
  function Assoc(headers: seq<string>, fields: seq<string>, n: nat): Record
    requires n <= |headers|
  {
    if n == 0 then []
    else SetKey(Assoc(headers, fields, n - 1), headers[n - 1], Str(Field(fields, n - 1)))
  }

  /** The value a row keeps for header k: the field under its last occurrence. */
  function Column(headers: seq<string>, fields: seq<string>, k: string): string
  {
    Field(fields, LastIndex(headers, k, |headers|))
  }

  /**
   * A row maps exactly the header names; each to the field under the last
   * column with that name, so fields past the header are dropped.
   */
  lemma {:induction false} AssocLookup(headers: seq<string>, fields: seq<string>, n: nat, k: string)
    requires n <= |headers|
    ensures Lookup(Assoc(headers, fields, n), k) ==
              if LastIndex(headers, k, n) >= 0
              then Some(Str(Field(fields, LastIndex(headers, k, n))))
              else None
  {
    if n > 0 {
      AssocLookup(headers, fields, n - 1, k);
      SetKeyLookup(Assoc(headers, fields, n - 1), headers[n - 1], Str(Field(fields, n - 1)), k);
    }
  }

  /** Every parsed row is keyed by exactly the names on the header line. */
  lemma RowKeys(headers: seq<string>, fields: seq<string>, k: string)
    ensures Lookup(Assoc(headers, fields, |headers|), k).Some? <==> k in headers
    ensures k in headers ==> Get(Assoc(headers, fields, |headers|), k) == Str(Column(headers, fields, k))
  {
    AssocLookup(headers, fields, |headers|, k);
    if k in headers {
      var j :| 0 <= j < |headers| && headers[j] == k;
      assert LastIndex(headers, k, |headers|) >= j;
    }
  }

  /** The rows of a result whose first complete rows are already collected. */
  function Prepend(rows: seq<Record>, r: Result<seq<Record>, SeedError>): Result<seq<Record>, SeedError>
  {
    match r
    case Ok(rest) => Ok(rows + rest)
    case Err(e) => Err(e)
  }

  /** The line has at least as many fields as the header. */
  predicate Complete(headers: seq<string>, line: string)
  {
    |CsvFields(line)| >= |headers|
  }

  /** What readCsvFrom makes of one data line. */
  datatype LineKind =
    | Blank              // skipped
    | Short              // fewer fields than the header: the fatal error
    | Row(row: Record)   // the header-keyed row

  function Classify(headers: seq<string>, line: string): (r: LineKind)
    ensures r.Blank? <==> IsBlank(line)
    ensures r.Short? <==> !IsBlank(line) && !Complete(headers, line)
    ensures r.Row? ==> r.row == Assoc(headers, CsvFields(line), |headers|)
  {
    if IsBlank(line) then Blank
    else
      var fields := CsvFields(line);
      if |fields| < |headers| then Short else Row(Assoc(headers, fields, |headers|))
  }

  /** Every data line classified. */
  function Classified(headers: seq<string>, body: seq<string>): (r: seq<LineKind>)
    ensures |r| == |body|
    ensures forall k :: 0 <= k < |body| ==> r[k] == Classify(headers, body[k])
  {
    seq(|body|, k requires 0 <= k < |body| => Classify(headers, body[k]))
  }

  /**
   * The rows of the classified data lines from index i on; data line
   * `index` is line index + 2 of the trimmed text.
   */
  function ParseFrom(kinds: seq<LineKind>, i: nat): (r: Result<seq<Record>, SeedError>)
    requires i <= |kinds|
    ensures r.Err? ==> r.error.IncompleteRow?
    decreases |kinds| - i
  {
    if i == |kinds| then Ok([])
    else
      match kinds[i]
      case Blank => ParseFrom(kinds, i + 1)
      case Short => Err(IncompleteRow(i + 2))
      case Row(row) => Prepend([row], ParseFrom(kinds, i + 1))
  }

  /** The rows of the non-blank lines from index i on, in order. */
  function RowsFrom(kinds: seq<LineKind>, i: nat): seq<Record>
    requires i <= |kinds|
    decreases |kinds| - i
  {
    if i == |kinds| then []
    else if kinds[i].Row? then [kinds[i].row] + RowsFrom(kinds, i + 1)
    else RowsFrom(kinds, i + 1)
  }

  /** Parsing succeeds exactly when no data line from i on is short. */
  lemma {:induction false} ParseFromOk(kinds: seq<LineKind>, i: nat)
    requires i <= |kinds|
    ensures ParseFrom(kinds, i).Ok? <==> forall j :: i <= j < |kinds| ==> !kinds[j].Short?
    decreases |kinds| - i
  {
    if i < |kinds| {
      ParseFromOk(kinds, i + 1);
    }
  }

  /** The error names line n, where data line n - 2 is the first short one. */
  lemma {:induction false} ParseFromError(kinds: seq<LineKind>, i: nat)
    requires i <= |kinds| && ParseFrom(kinds, i).Err?
    ensures var n := ParseFrom(kinds, i).error.line;
            && i <= n - 2 < |kinds| && kinds[n - 2].Short?
            && forall j :: i <= j < n - 2 ==> !kinds[j].Short?
    decreases |kinds| - i
  {
    if !kinds[i].Short? {
      ParseFromError(kinds, i + 1);
    }
  }

  /** On success the rows are those of the non-blank lines, in order. */
  lemma {:induction false} ParseFromRows(kinds: seq<LineKind>, i: nat)
    requires i <= |kinds| && ParseFrom(kinds, i).Ok?
    ensures ParseFrom(kinds, i).value == RowsFrom(kinds, i)
    decreases |kinds| - i
  {
    if i < |kinds| {
      ParseFromRows(kinds, i + 1);
    }
  }

  /** Skipped lines are exactly the blank ones: one row per non-blank line. */
  lemma {:induction false} RowsFromCount(kinds: seq<LineKind>, i: nat)
    requires i <= |kinds| && forall j :: i <= j < |kinds| ==> !kinds[j].Short?
    ensures |RowsFrom(kinds, i)| == |set j | i <= j < |kinds| && !kinds[j].Blank?|
    decreases |kinds| - i
  {
    if i < |kinds| {
      RowsFromCount(kinds, i + 1);
      var later := set j | i + 1 <= j < |kinds| && !kinds[j].Blank?;
      if kinds[i].Blank? {
        assert (set j | i <= j < |kinds| && !kinds[j].Blank?) == later;
      } else {
        assert (set j | i <= j < |kinds| && !kinds[j].Blank?) == {i} + later;
      }
    }
  }

  /** The lines of the trimmed text. */
  function Lines(content: string): (r: seq<string>)
    ensures |r| >= 1
  {
    Explode('\n', Trim(content))
  }

  /** The header line's fields. */
  function Headers(content: string): seq<string>
  {
    CsvFields(Lines(content)[0])
  }

  /** readCsvFrom on the text read: the header-keyed rows or the data error. */
  function ReadCsv(content: string): Result<seq<Record>, SeedError>
  {
    if IsBlank(content) then Err(EmptyInput)
    else
      match FirstMissing(ExpectedHeaders, Headers(content))
      case Some(h) => Err(MissingHeader(h))
      case None => ParseFrom(Classified(Headers(content), Lines(content)[1..]), 0)
  }

  /** The inner foreach of readCsvFrom: one field per header, in header order. */
  method BuildRow(headers: seq<string>, row: seq<string>) returns (assocRow: Record)
    ensures assocRow == Assoc(headers, row, |headers|)
  {
    assocRow := [];
    var i := 0;
    while i < |headers|
      invariant 0 <= i <= |headers|
      invariant assocRow == Assoc(headers, row, i)
    {
      assocRow := SetKey(assocRow, headers[i], Str(Field(row, i)));
      i := i + 1;
    }
  }

  /** The outer foreach of readCsvFrom over the data lines. */
  method ParseRows(headers: seq<string>, body: seq<string>) returns (r: Result<seq<Record>, SeedError>)
    ensures r == ParseFrom(Classified(headers, body), 0)
  {
    ghost var kinds := Classified(headers, body);
    var rows: seq<Record> := [];
    var index := 0;
    assert Prepend([], ParseFrom(kinds, 0)) == ParseFrom(kinds, 0) by {
      var all := ParseFrom(kinds, 0);
      if all.Ok? {
        assert [] + all.value == all.value;
      }
    }
    while index < |body|
      invariant 0 <= index <= |body|
      invariant ParseFrom(kinds, 0) == Prepend(rows, ParseFrom(kinds, index))
    {
      var line := body[index];
      assert kinds[index] == Classify(headers, line);
      if IsBlank(line) {
        index := index + 1;
        continue;
      }
      var row := CsvFields(line);
      if |row| < |headers| {
        return Err(IncompleteRow(index + 2));
      }
      var assocRow := BuildRow(headers, row);
      var later := ParseFrom(kinds, index + 1);
      if later.Ok? {
        assert rows + ([assocRow] + later.value) == (rows + [assocRow]) + later.value;
      }
      rows := rows + [assocRow];
      index := index + 1;
    }
    assert rows + [] == rows;
    return Ok(rows);
  }

  /** readCsvFrom on the text already read. */
  method ReadCsvFrom(content: string) returns (r: Result<seq<Record>, SeedError>)
    ensures r == ReadCsv(content)
  {
    var text := Trim(content);
    if IsEmpty(Str(text)) {
      return Err(EmptyInput);
    }
    var lines := Explode('\n', text);
    var headers := CsvFields(lines[0]);
    var k := 0;
    while k < |ExpectedHeaders|
      invariant 0 <= k <= |ExpectedHeaders|
      invariant forall j :: 0 <= j < k ==> ExpectedHeaders[j] in headers
    {
      if ExpectedHeaders[k] !in headers {
        return Err(MissingHeader(ExpectedHeaders[k]));
      }
      k := k + 1;
    }
    r := ParseRows(headers, lines[1..]);
  }

  /** Input that is blank once trimmed, or "0", is the empty-input error and nothing else is. */
  lemma EmptyInputError(content: string)
    ensures ReadCsv(content) == Err(EmptyInput) <==> Trim(content) == "" || Trim(content) == "0"
  {
  }

  /**
   * The header check reports the first required header, in the fixed order,
   * that the header line lacks; it passes exactly when all five are present.
   */
  lemma HeaderCheck(content: string)
    requires !IsBlank(content)
    ensures ReadCsv(content).Err? && ReadCsv(content).error.MissingHeader? <==>
              exists i :: 0 <= i < |ExpectedHeaders| && ExpectedHeaders[i] !in Headers(content)
    ensures ReadCsv(content).Err? && ReadCsv(content).error.MissingHeader? ==>
              exists i :: 0 <= i < |ExpectedHeaders| &&
                ExpectedHeaders[i] == ReadCsv(content).error.header &&
                ExpectedHeaders[i] !in Headers(content) &&
                forall j :: 0 <= j < i ==> ExpectedHeaders[j] in Headers(content)
  {
  }

  /**
   * An incomplete-row error names n, where the n-th line of the trimmed
   * text (counting from 1, the header being line 1) is the first non-blank
   * data line with fewer fields than the header.
   */
  lemma IncompleteRowLine(content: string, n: int)
    requires ReadCsv(content) == Err(IncompleteRow(n))
    ensures 2 <= n <= |Lines(content)|
    ensures !IsBlank(Lines(content)[n - 1]) && !Complete(Headers(content), Lines(content)[n - 1])
    ensures forall j :: 1 <= j < n - 1 ==> IsBlank(Lines(content)[j]) || Complete(Headers(content), Lines(content)[j])
  {
    ShortLine(Headers(content), Lines(content), n);
  }

  /** The line an IncompleteRow error names, against any header and any lines. */
  lemma ShortLine(headers: seq<string>, lines: seq<string>, n: int)
    requires |lines| >= 1 && ParseFrom(Classified(headers, lines[1..]), 0) == Err(IncompleteRow(n))
    ensures 2 <= n <= |lines|
    ensures !IsBlank(lines[n - 1]) && !Complete(headers, lines[n - 1])
    ensures forall j :: 1 <= j < n - 1 ==> IsBlank(lines[j]) || Complete(headers, lines[j])
  {
    var body := lines[1..];
    var kinds := Classified(headers, body);
    ParseFromError(kinds, 0);
    assert kinds[n - 2] == Classify(headers, body[n - 2]) && body[n - 2] == lines[n - 1];
    forall j | 1 <= j < n - 1
      ensures IsBlank(lines[j]) || Complete(headers, lines[j])
    {
      assert !kinds[j - 1].Short? && kinds[j - 1] == Classify(headers, body[j - 1]);
      assert body[j - 1] == lines[j];
    }
  }

  /**
   * A successful read has all five headers, and its rows are those of the
   * non-blank data lines, in order, each keyed by the header line.
   */
  lemma ReadCsvRows(content: string)
    requires ReadCsv(content).Ok?
    ensures !IsBlank(content) && FirstMissing(ExpectedHeaders, Headers(content)) == None
    ensures var kinds := Classified(Headers(content), Lines(content)[1..]);
            && (forall j :: 0 <= j < |kinds| ==> !kinds[j].Short?)
            && ReadCsv(content).value == RowsFrom(kinds, 0)
            && |ReadCsv(content).value| == |set j | 0 <= j < |kinds| && !kinds[j].Blank?|
  {
    var kinds := Classified(Headers(content), Lines(content)[1..]);
    ParseFromOk(kinds, 0);
    ParseFromRows(kinds, 0);
    RowsFromCount(kinds, 0);
  }

  // ---------------------------------------------------------- normalisation

  /** normalizeArticle($row, $id) */
  function NormalizeArticle(row: Record, id: int): SeedArticle
  {
    SeedArticle(
      id,
      Trim(ToStr(Coalesce(row, "title", Str("Untitled")))),
      Trim(ToStr(Coalesce(row, "excerpt", Str("")))),
      ToInt(Coalesce(row, "views", Int(0))),
      ToBool(Coalesce(row, "published", Bool(true))),
      Trim(ToStr(Coalesce(row, "author", Str("Unknown")))))
  }

  /** On a parsed row, `$row[$k] ?? $default` is the column of any header k. */
  lemma CsvCoalesce(headers: seq<string>, fields: seq<string>, k: string, default: Value)
    requires k in headers
    ensures Coalesce(Assoc(headers, fields, |headers|), k, default) == Str(Column(headers, fields, k))
  {
    RowKeys(headers, fields, k);
  }

  /**
   * On a parsed CSV row every required key is present, so no default is
   * used: the text fields are the trimmed columns, views is the (int) cast
   * of its column and published the (bool) cast of its column.
   */
  lemma NormalizeCsvRow(headers: seq<string>, fields: seq<string>, id: int)
    requires FirstMissing(ExpectedHeaders, headers) == None
    ensures var a := NormalizeArticle(Assoc(headers, fields, |headers|), id);
            && a.id == id
            && a.title == Trim(Column(headers, fields, "title"))
            && a.excerpt == Trim(Column(headers, fields, "excerpt"))
            && a.views == StringToInt(Column(headers, fields, "views"))
            && a.published == (Column(headers, fields, "published") != "" && Column(headers, fields, "published") != "0")
            && a.author == Trim(Column(headers, fields, "author"))
  {
    assert ExpectedHeaders[0] in headers && ExpectedHeaders[1] in headers && ExpectedHeaders[2] in headers;
    assert ExpectedHeaders[3] in headers && ExpectedHeaders[4] in headers;
    CsvCoalesce(headers, fields, "title", Str("Untitled"));
    CsvCoalesce(headers, fields, "excerpt", Str(""));
    CsvCoalesce(headers, fields, "views", Int(0));
    CsvCoalesce(headers, fields, "published", Bool(true));
    CsvCoalesce(headers, fields, "author", Str("Unknown"));
  }

  /**
   * The casts are PHP's own: a negative view count stays negative, and the
   * text "false" counts as published.
   */
  lemma CsvCasts(headers: seq<string>, fields: seq<string>, id: int, digits: string)
    requires FirstMissing(ExpectedHeaders, headers) == None
    requires digits != [] && forall i :: 0 <= i < |digits| ==> IsDigit(digits[i])
    ensures Column(headers, fields, "views") == "-" + digits ==>
              NormalizeArticle(Assoc(headers, fields, |headers|), id).views == 0 - DigitsValue(digits)
    ensures Column(headers, fields, "published") == "false" ==>
              NormalizeArticle(Assoc(headers, fields, |headers|), id).published
  {
    assert ExpectedHeaders[2] in headers && ExpectedHeaders[3] in headers;
    CsvCoalesce(headers, fields, "views", Int(0));
    CsvCoalesce(headers, fields, "published", Bool(true));
    StringToIntOfNegative(digits);
  }

  // ---------------------------------------------------------- filter, limit

  /** Every raw row normalised, with its 1-based position as id. */
  function NormalizeAll(rows: seq<Record>): (r: seq<SeedArticle>)
    ensures |r| == |rows|
    ensures forall i :: 0 <= i < |rows| ==> r[i] == NormalizeArticle(rows[i], i + 1) && r[i].id == i + 1
  {
    seq(|rows|, i requires 0 <= i < |rows| => NormalizeArticle(rows[i], i + 1))
  }

  /** The published-only filter keeps this article. */
  predicate Kept(publishedOnly: bool, a: SeedArticle)
  {
    !publishedOnly || a.published
  }

  /** The items collected from the first n normalised articles. */
  function Items(arts: seq<SeedArticle>, publishedOnly: bool, n: nat): seq<SeedArticle>
    requires n <= |arts|
  {
    if n == 0 then []
    else if Kept(publishedOnly, arts[n - 1]) then Items(arts, publishedOnly, n - 1) + [arts[n - 1]]
    else Items(arts, publishedOnly, n - 1)
  }

  /** The effective limit: max(1, (int) option) when the option is given. */
  function EffectiveLimit(limit: Option<int>): (r: Option<nat>)
    ensures r.Some? <==> limit.Some?
    ensures r.Some? ==> r.value >= 1 && r.value >= limit.value
    ensures r.Some? && limit.value >= 1 ==> r.value == limit.value
    ensures r.Some? && limit.value < 1 ==> r.value == 1
  {
    match limit
    case None => None
    case Some(n) => Some(if n < 1 then 1 else n)
  }

  /** array_slice($items, 0, $limit) for a limit that is absent or positive. */
  function Take(items: seq<SeedArticle>, limit: Option<nat>): seq<SeedArticle>
  {
    match limit
    case None => items
    case Some(n) => if n < |items| then items[..n] else items
  }

  /** The seed output for the parsed rows. */
  function SeedItems(rows: seq<Record>, publishedOnly: bool, limit: Option<int>): seq<SeedArticle>
  {
    Take(Items(NormalizeAll(rows), publishedOnly, |rows|), EffectiveLimit(limit))
  }

  lemma ItemsStep(arts: seq<SeedArticle>, publishedOnly: bool, n: nat)
    requires n < |arts|
    ensures Items(arts, publishedOnly, n + 1) ==
              if Kept(publishedOnly, arts[n]) then Items(arts, publishedOnly, n) + [arts[n]]
              else Items(arts, publishedOnly, n)
  {
  }

  method NormalizeRows(rawRows: seq<Record>, publishedOnly: bool) returns (items: seq<SeedArticle>)
    ensures items == Items(NormalizeAll(rawRows), publishedOnly, |rawRows|)
  {
    ghost var arts := NormalizeAll(rawRows);
    assert forall i :: 0 <= i < |rawRows| ==> arts[i] == NormalizeArticle(rawRows[i], i + 1);
    items := [];
    var index := 0;
    while index < |rawRows|
      invariant 0 <= index <= |rawRows|
      invariant items == Items(arts, publishedOnly, index)
    {
      var item := NormalizeArticle(rawRows[index], index + 1);
      ItemsStep(arts, publishedOnly, index);
      if Kept(publishedOnly, item) {
        items := items + [item];
      }
      index := index + 1;
    }
  }

  /** The loop over the parsed rows, then the slice to the limit. */
  method CollectItems(rawRows: seq<Record>, publishedOnly: bool, limitOption: Option<int>)
    returns (items: seq<SeedArticle>)
    ensures items == SeedItems(rawRows, publishedOnly, limitOption)
  {
    var limit := EffectiveLimit(limitOption);
    items := NormalizeRows(rawRows, publishedOnly);
    if limit.Some? && limit.value < |items| {
      items := items[..limit.value];
    }
  }

  /** The positions of the articles the filter keeps among the first n, in order. */
  function KeptIndices(arts: seq<SeedArticle>, publishedOnly: bool, n: nat): (r: seq<nat>)
    requires n <= |arts|
    ensures |r| == |Items(arts, publishedOnly, n)|
    ensures forall k :: 0 <= k < |r| ==> r[k] < n
  {
    if n == 0 then []
    else if Kept(publishedOnly, arts[n - 1]) then KeptIndices(arts, publishedOnly, n - 1) + [n - 1]
    else KeptIndices(arts, publishedOnly, n - 1)
  }

  /** Item k is the article at the k-th kept position, and the filter keeps it. */
  lemma {:induction false} KeptIndicesSelect(arts: seq<SeedArticle>, publishedOnly: bool, n: nat)
    requires n <= |arts|
    ensures forall k :: 0 <= k < |KeptIndices(arts, publishedOnly, n)| ==>
              var i := KeptIndices(arts, publishedOnly, n)[k];
              Items(arts, publishedOnly, n)[k] == arts[i] && Kept(publishedOnly, arts[i])
  {
    if n > 0 {
      KeptIndicesSelect(arts, publishedOnly, n - 1);
    }
  }

  /** The kept positions strictly increase: the filter keeps the input order. */
  lemma {:induction false} KeptIndicesIncreasing(arts: seq<SeedArticle>, publishedOnly: bool, n: nat)
    requires n <= |arts|
    ensures forall k, l :: 0 <= k < l < |KeptIndices(arts, publishedOnly, n)| ==>
              KeptIndices(arts, publishedOnly, n)[k] < KeptIndices(arts, publishedOnly, n)[l]
  {
    if n > 0 {
      KeptIndicesIncreasing(arts, publishedOnly, n - 1);
    }
  }

  /** Every article the filter keeps is among the kept positions. */
  lemma {:induction false} KeptIndicesComplete(arts: seq<SeedArticle>, publishedOnly: bool, n: nat, j: nat)
    requires j < n <= |arts| && Kept(publishedOnly, arts[j])
    ensures j in KeptIndices(arts, publishedOnly, n)
  {
    if j < n - 1 {
      KeptIndicesComplete(arts, publishedOnly, n - 1, j);
    }
  }

  /**
   * Ids are positions before filtering: item k is raw row idx[k]
   * normalised with id idx[k] + 1, and with the published-only flag it is
   * published.
   */
  lemma SeedSelection(rows: seq<Record>, publishedOnly: bool, k: nat)
    requires k < |Items(NormalizeAll(rows), publishedOnly, |rows|)|
    ensures var idx := KeptIndices(NormalizeAll(rows), publishedOnly, |rows|);
            var item := Items(NormalizeAll(rows), publishedOnly, |rows|)[k];
            && idx[k] < |rows|
            && item == NormalizeAll(rows)[idx[k]]
            && item.id == idx[k] + 1
            && (publishedOnly ==> item.published)
  {
    KeptIndicesSelect(NormalizeAll(rows), publishedOnly, |rows|);
  }

  /** Without the published-only flag every article is kept. */
  lemma {:induction false} ItemsAll(arts: seq<SeedArticle>, n: nat)
    requires n <= |arts|
    ensures Items(arts, false, n) == arts[..n]
  {
    if n > 0 {
      ItemsAll(arts, n - 1);
      assert arts[..n] == arts[..n - 1] + [arts[n - 1]];
    }
  }

  /**
   * The slice keeps a prefix of the filtered items, at most the effective
   * limit long and never empty when there is an item; without a limit it
   * keeps them all.
   */
  lemma LimitPrefix(items: seq<SeedArticle>, limit: Option<int>)
    ensures Take(items, EffectiveLimit(limit)) <= items
    ensures limit.Some? ==>
              var m := if limit.value < 1 then 1 else limit.value;
              |Take(items, EffectiveLimit(limit))| == if |items| < m then |items| else m
    ensures limit.Some? && items != [] ==> Take(items, EffectiveLimit(limit)) != []
    ensures limit.None? ==> Take(items, EffectiveLimit(limit)) == items
  {
  }

  /** The whole script: the seed output for the text read, or its data error. */
  function Seed(content: string, publishedOnly: bool, limit: Option<int>): Result<seq<SeedArticle>, SeedError>
  {
    match ReadCsv(content)
    case Ok(rows) => Ok(SeedItems(rows, publishedOnly, limit))
    case Err(e) => Err(e)
  }

  /** The script body after option parsing. */
  method RunSeed(content: string, publishedOnly: bool, limit: Option<int>)
    returns (r: Result<seq<SeedArticle>, SeedError>)
    ensures r == Seed(content, publishedOnly, limit)
  {
    var rawRows := ReadCsvFrom(content);
    if rawRows.Err? {
      return Err(rawRows.error);
    }
    var items := CollectItems(rawRows.value, publishedOnly, limit);
    return Ok(items);
  }
}
