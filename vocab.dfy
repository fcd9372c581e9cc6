/**
 * The word repository: parsing one unit file (a header line followed by
 * comma-separated rows `type,gender,word,cn,forms,example`) into word
 * records, as the body of `fetchCsv` does once the text has been fetched.
 */
module Vocab {
  import opened Options
  import opened Text
  import opened Collections

  /** A unit descriptor as the sidebar builds it. */
  datatype UnitInfo = UnitInfo(book: string, file: string, name: string)

  /** A parsed word. `pos` is the source's `type` field (a part-of-speech
      tag such as "n" or "v"), `cn` the gloss. */
  datatype WordRecord = WordRecord(
    id: string, unit: string, pos: string, gender: string,
    word: string, cn: string, forms: string, example: string)

  /** The part-of-speech tag of nouns. */
  const NounTag := "n"

  predicate IsNoun(w: WordRecord) { w.pos == NounTag }

  /** The identifier that ignore and favourite marks refer to. */
  function RecordId(info: UnitInfo, word: string): string {
    info.book + "-" + info.name + "-" + word
  }

  /** An optional column, `row[k] ? row[k].trim() : ""`. */
  function OptionalField(row: seq<string>, k: nat): string {
    if k < |row| then Trim(row[k]) else ""
  }

  /** The record built from one split row. Columns 0, 2 and 3 are read
      unguarded, so the row needs at least four of them. */
  function MakeRecord(info: UnitInfo, row: seq<string>): WordRecord
    requires |row| >= 4
  {
    var word := Trim(row[2]);
    WordRecord(RecordId(info, word), info.name, Trim(row[0]), OptionalField(row, 1),
               word, Trim(row[3]), OptionalField(row, 4), OptionalField(row, 5))
  }

  /** `!line.trim()`: the loop skips such lines. */
  predicate IsBlank(line: string) { Trim(line) == "" }

  /** A data line the loop can turn into a record: splitting it gives the
      four columns it reads without a guard. On any other non-blank line
      `row[2].trim()` or `row[3].trim()` throws. */
  predicate WellFormed(line: string) { |Split(line, ',')| >= 4 }

  /** The lines of a fetched file, `text.trim().split('\n')`. */
  function Lines(text: string): (lines: seq<string>)
    ensures |lines| >= 1
  {
    Split(Trim(text), '\n')
  }

  /** The records of the data lines, in order, or `None` when one of the
      non-blank lines is not well formed (the source then throws). */
  function ParseLines(info: UnitInfo, lines: seq<string>): Option<seq<WordRecord>> {
    if lines == [] then Some([])
    else if IsBlank(lines[0]) then ParseLines(info, lines[1..])
    else
      var row := Split(lines[0], ',');
      if |row| < 4 then None
      else
        match ParseLines(info, lines[1..])
        case None => None
        case Some(rest) => Some([MakeRecord(info, row)] + rest)
  }

  /** What `fetchCsv` resolves to: `response` is the fetched text, or
      `None` when the fetch failed or the status was not ok. Any failure
      makes the whole unit empty. */
  function ParseUnit(info: UnitInfo, response: Option<string>): seq<WordRecord> {
    match response
    case None => []
    case Some(text) =>
      match ParseLines(info, Lines(text)[1..])
      case None => []
      case Some(words) => words
  }

  /** The non-blank lines. */
  function DataLines(lines: seq<string>): seq<string> {
    Filter(lines, (l: string) => !IsBlank(l))
  }

  predicate AllWellFormed(data: seq<string>) {
    forall k :: 0 <= k < |data| ==> WellFormed(data[k])
  }

  /** The record of a well-formed data line. */
  function LineRecord(info: UnitInfo, line: string): WordRecord
    requires WellFormed(line)
  {
    MakeRecord(info, Split(line, ','))
  }

  /** One record per line, in order. */
  function RecordsOf(info: UnitInfo, data: seq<string>): seq<WordRecord>
    requires AllWellFormed(data)
  {
    Map(data, (l: string) requires WellFormed(l) => LineRecord(info, l))
  }

  lemma DataLinesFirst(lines: seq<string>)
    requires lines != []
    ensures IsBlank(lines[0]) ==> DataLines(lines) == DataLines(lines[1..])
    ensures !IsBlank(lines[0]) ==> DataLines(lines) == [lines[0]] + DataLines(lines[1..])
  {
    assert DataLines(lines) == (if IsBlank(lines[0]) then [] else [lines[0]]) + DataLines(lines[1..]);
  }

  lemma AllWellFormedCons(line: string, data: seq<string>)
    ensures AllWellFormed([line] + data) <==> WellFormed(line) && AllWellFormed(data)
  {
    var all := [line] + data;
    assert all[0] == line;
    assert forall k :: 0 <= k < |data| ==> data[k] == all[k + 1];
    assert forall k :: 1 <= k < |all| ==> all[k] == data[k - 1];
  }

  /** Reference definition of the parse: one record per non-blank line, in
      order, if every non-blank line is well formed, and a failure
      otherwise. */
  lemma {:induction false} ParseLinesSpec(info: UnitInfo, lines: seq<string>)
    ensures ParseLines(info, lines) ==
      if AllWellFormed(DataLines(lines)) then Some(RecordsOf(info, DataLines(lines))) else None
  {
    if lines != [] {
      ParseLinesSpec(info, lines[1..]);
      DataLinesFirst(lines);
      var tail := DataLines(lines[1..]);
      if !IsBlank(lines[0]) {
        if WellFormed(lines[0]) {
          AllWellFormedCons(lines[0], tail);
          if AllWellFormed(tail) {
            assert ([lines[0]] + tail)[1..] == tail;
          }
        } else {
          AllWellFormedCons(lines[0], tail);
        }
      }
    }
  }

  /** The unit as a whole: the header is skipped, every non-blank line
      after it gives one record in order, and one line that is not well
      formed empties the unit. */
  lemma ParseUnitSpec(info: UnitInfo, text: string)
    ensures var data := DataLines(Lines(text)[1..]);
      ParseUnit(info, Some(text)) == if AllWellFormed(data) then RecordsOf(info, data) else []
  {
    var lines := Lines(text)[1..];
    ParseLinesSpec(info, lines);
    UnitOfParse(info, text);
  }

  /** A fetched unit is its parse, or empty when the parse fails. */
  lemma UnitOfParse(info: UnitInfo, text: string)
    ensures var p := ParseLines(info, Lines(text)[1..]);
      ParseUnit(info, Some(text)) == if p.Some? then p.value else []
  {
  }

  /** One non-blank line that lacks column 2 or 3 makes the whole parse
      fail, wherever it is. */
  lemma {:induction false} ShortRowFails(info: UnitInfo, lines: seq<string>, k: nat)
    requires k < |lines| && !IsBlank(lines[k]) && !WellFormed(lines[k])
    ensures ParseLines(info, lines) == None
  {
    ParseLinesAt(info, lines, 0);
    assert lines[0..] == lines;
    if k > 0 {
      assert lines[1..][k - 1] == lines[k];
      ShortRowFails(info, lines[1..], k - 1);
    }
  }

  /** So such a line after the header makes the unit empty. */
  lemma ShortRowEmptiesUnit(info: UnitInfo, text: string, k: nat)
    requires 1 <= k < |Lines(text)|
    requires !IsBlank(Lines(text)[k]) && !WellFormed(Lines(text)[k])
    ensures ParseUnit(info, Some(text)) == []
  {
    ShortRowAfterHeader(info, Lines(text), k);
    UnitOfParse(info, text);
  }

  lemma ShortRowAfterHeader(info: UnitInfo, lines: seq<string>, k: nat)
    requires 1 <= k < |lines| && !IsBlank(lines[k]) && !WellFormed(lines[k])
    ensures ParseLines(info, lines[1..]) == None
  {
    assert lines[1..][k - 1] == lines[k];
    ShortRowFails(info, lines[1..], k - 1);
  }


  /** Every record of a unit carries the unit's name and the identifier
      built from the book, the unit and its trimmed word. */
  lemma {:induction false} RecordIdentity(info: UnitInfo, lines: seq<string>)
    ensures ParseLines(info, lines).Some? ==>
      forall r :: r in ParseLines(info, lines).value ==>
        r.id == RecordId(info, r.word) && r.unit == info.name && Trimmed(r.word)
  {
    if lines != [] {
      RecordIdentity(info, lines[1..]);
    }
  }

  /** A joined row of two or more columns holds a comma, so it is not blank. */
  lemma JoinedRowNotBlank(fields: seq<string>)
    requires |fields| >= 2
    ensures !IsBlank(Join(fields, ','))
  {
    var line := Join(fields, ',');
    assert line == fields[0] + [','] + Join(fields[1..], ',');
    assert line[|fields[0]|] == ',';
    TrimEmpty(line);
  }

  /** The record of a row whose columns are already trimmed. */
  lemma RecordOfTrimmedRow(info: UnitInfo, fields: seq<string>)
    requires |fields| >= 4
    requires forall k :: 0 <= k < |fields| ==> Trimmed(fields[k])
    ensures MakeRecord(info, fields) ==
      WordRecord(RecordId(info, fields[2]), info.name, fields[0], fields[1], fields[2], fields[3],
                 if |fields| > 4 then fields[4] else "",
                 if |fields| > 5 then fields[5] else "")
  {
    TrimOfTrimmed(fields[0]);
    TrimOfTrimmed(fields[1]);
    TrimOfTrimmed(fields[2]);
    TrimOfTrimmed(fields[3]);
    if |fields| > 4 { TrimOfTrimmed(fields[4]); }
    if |fields| > 5 { TrimOfTrimmed(fields[5]); }
  }

  /** Formatting a row and parsing it back: a line made of at least four
      comma-free, trimmed fields gives back those fields, and the optional
      columns that are absent become empty. */
  lemma RowRoundTrip(info: UnitInfo, fields: seq<string>)
    requires |fields| >= 4
    requires forall k :: 0 <= k < |fields| ==> ',' !in fields[k] && Trimmed(fields[k])
    ensures ParseLines(info, [Join(fields, ',')]) ==
      Some([WordRecord(RecordId(info, fields[2]), info.name, fields[0], fields[1], fields[2], fields[3],
                       if |fields| > 4 then fields[4] else "",
                       if |fields| > 5 then fields[5] else "")])
  {
    var line := Join(fields, ',');
    JoinedRowNotBlank(fields);
    SplitJoin(fields, ',');
    RecordOfTrimmedRow(info, fields);
    SingleLine(info, line);
  }

  lemma SingleLine(info: UnitInfo, line: string)
    requires !IsBlank(line) && WellFormed(line)
    ensures ParseLines(info, [line]) == Some([LineRecord(info, line)])
  {
    var lines := [line];
    ParseLinesAt(info, lines, 0);
    assert lines[0..] == lines;
    assert lines[1..] == [];
    assert [LineRecord(info, line)] + [] == [LineRecord(info, line)];
  }

  /** A unit to load and what fetching its file gave. */
  datatype Fetched = Fetched(info: UnitInfo, response: Option<string>)

  /** What `fetchCsv` resolves to for each unit, in order. */
  function UnitWords(units: seq<Fetched>): (results: seq<seq<WordRecord>>)
    ensures |results| == |units|
  {
    seq(|units|, k requires 0 <= k < |units| => ParseUnit(units[k].info, units[k].response))
  }

  /** Fetching every unit and concatenating the results, as
      `loadSelectedUnits` does once all fetches have settled. */
  method FetchUnits(units: seq<Fetched>) returns (all: seq<WordRecord>)
    ensures all == Concat(UnitWords(units))
  {
    ghost var results := UnitWords(units);
    all := [];
    var i := 0;
    while i < |units|
      invariant 0 <= i <= |units|
      invariant all == Concat(results[..i])
    {
      var words := FetchCsv(units[i].info, units[i].response);
      ConcatPrefix(results, i);
      all := all + words;
      i := i + 1;
    }
    assert results[..i] == results;
  }

  /** `words` followed by the outcome of the rest of the parse. */
  function Prepend(words: seq<WordRecord>, rest: Option<seq<WordRecord>>): Option<seq<WordRecord>> {
    match rest
    case None => None
    case Some(more) => Some(words + more)
  }

  lemma PrependNothing(rest: Option<seq<WordRecord>>)
    ensures Prepend([], rest) == rest
  {
    if rest.Some? { assert [] + rest.value == rest.value; }
  }

  lemma PrependTwice(words: seq<WordRecord>, more: seq<WordRecord>, rest: Option<seq<WordRecord>>)
    ensures Prepend(words, Prepend(more, rest)) == Prepend(words + more, rest)
  {
    if rest.Some? { assert words + (more + rest.value) == (words + more) + rest.value; }
  }

  /** One step of the parse, from line `i` on. */
  lemma ParseLinesAt(info: UnitInfo, lines: seq<string>, i: nat)
    requires i < |lines|
    ensures ParseLines(info, lines[i..]) ==
      if IsBlank(lines[i]) then ParseLines(info, lines[i + 1..])
      else if !WellFormed(lines[i]) then None
      else Prepend([LineRecord(info, lines[i])], ParseLines(info, lines[i + 1..]))
  {
    assert lines[i..][0] == lines[i];
    assert lines[i..][1..] == lines[i + 1..];
  }

  /** The loop invariant of `fetchCsv` after the records before line `i`. */
  ghost predicate Parsed(info: UnitInfo, lines: seq<string>, i: nat, words: seq<WordRecord>)
    requires 1 <= i <= |lines|
  {
    ParseLines(info, lines[1..]) == Prepend(words, ParseLines(info, lines[i..]))
  }

  lemma ParsedStep(info: UnitInfo, lines: seq<string>, i: nat, words: seq<WordRecord>)
    requires 1 <= i < |lines| && Parsed(info, lines, i, words)
    ensures IsBlank(lines[i]) ==> Parsed(info, lines, i + 1, words)
    ensures !IsBlank(lines[i]) && !WellFormed(lines[i]) ==> ParseLines(info, lines[1..]) == None
    ensures !IsBlank(lines[i]) && WellFormed(lines[i]) ==>
      Parsed(info, lines, i + 1, words + [LineRecord(info, lines[i])])
  {
    ParseLinesAt(info, lines, i);
    if !IsBlank(lines[i]) && WellFormed(lines[i]) {
      PrependTwice(words, [LineRecord(info, lines[i])], ParseLines(info, lines[i + 1..]));
    }
  }

  lemma ParsedStart(info: UnitInfo, lines: seq<string>)
    requires 1 <= |lines|
    ensures Parsed(info, lines, 1, [])
  {
    PrependNothing(ParseLines(info, lines[1..]));
  }

  lemma ParsedEnd(info: UnitInfo, lines: seq<string>, i: nat, words: seq<WordRecord>)
    requires 1 <= i == |lines| && Parsed(info, lines, i, words)
    ensures ParseLines(info, lines[1..]) == Some(words)
  {
    assert lines[i..] == [];
    assert words + [] == words;
  }

  /** The loop of `fetchCsv`: skip the header, skip blank lines, build one
      record per line, and give up with an empty unit on a short row. */
  method FetchCsv(info: UnitInfo, response: Option<string>) returns (words: seq<WordRecord>)
    ensures words == ParseUnit(info, response)
  {
    if response.None? {
      return [];
    }
    var lines := Lines(response.value);
    words := [];
    var i := 1;
    ParsedStart(info, lines);
    while i < |lines|
      invariant 1 <= i <= |lines|
      invariant Parsed(info, lines, i, words)
    {
      ParsedStep(info, lines, i, words);
      if IsBlank(lines[i]) {
        i := i + 1;
        continue;
      }
      var row := Split(lines[i], ',');
      if |row| < 4 {
        return [];
      }
      var rec := MakeRecord(info, row);
      words := words + [rec];
      i := i + 1;
    }
    ParsedEnd(info, lines, i, words);
  }
}
