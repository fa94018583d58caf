/**
 * The movie file as a whole: saving writes one formatted line per record,
 * in list order; loading keeps the well-formed lines, in file order, and
 * turns each back into a record. Turning a rating into text and back
 * (float output and stof) is not modelled: both conversions are parameters.
 */
module Persistence {
  import opened Wrappers
  import opened Catalog
  import opened LineCodec

  /** The three text fields written for a record. */
  function ToFields(r: Record, formatRating: Rating -> string): Fields
  {
    Fields(r.name, r.genre, formatRating(r.rating))
  }

  /** The record rebuilt from the text fields of an accepted line. */
  function FromFields(f: Fields, parseRating: string -> Rating): Record
  {
    Record(f.name, f.genre, parseRating(f.ratingText))
  }

  /** The lines the save writes: one per record, in list order. */
  function SaveLines(s: seq<Record>, formatRating: Rating -> string): (r: seq<string>)
    ensures |r| == |s|
  {
    if |s| == 0 then []
    else [FormatLine(ToFields(s[0], formatRating))] + SaveLines(s[1..], formatRating)
  }

  /** Saving writes exactly one line per record, the i-th line for the i-th record. */
  lemma {:induction false} SaveLinesAt(s: seq<Record>, formatRating: Rating -> string)
    ensures |SaveLines(s, formatRating)| == |s|
    ensures forall i :: 0 <= i < |s| ==> SaveLines(s, formatRating)[i] == FormatLine(ToFields(s[i], formatRating))
  {
    if |s| > 0 {
      SaveLinesAt(s[1..], formatRating);
    }
  }

  /** The records the load appends: one per accepted line, in file order. */
  function LoadRecords(lines: seq<string>, parseRating: string -> Rating): (r: seq<Record>)
    ensures |r| <= |lines|
  {
    if |lines| == 0 then []
    else match ParseLine(lines[0])
      case None => LoadRecords(lines[1..], parseRating)
      case Some(f) => [FromFields(f, parseRating)] + LoadRecords(lines[1..], parseRating)
  }

  /** Loading the lines of two files one after the other. */
  lemma {:induction false} LoadConcat(a: seq<string>, b: seq<string>, parseRating: string -> Rating)
    ensures LoadRecords(a + b, parseRating) == LoadRecords(a, parseRating) + LoadRecords(b, parseRating)
  {
    if |a| == 0 {
      assert a + b == b;
    } else {
      assert (a + b)[1..] == a[1..] + b;
      LoadConcat(a[1..], b, parseRating);
    }
  }

  /** Loading one more line of a file appends what that line alone loads. */
  lemma LoadPrefixStep(lines: seq<string>, k: nat, parseRating: string -> Rating)
    requires k < |lines|
    ensures LoadRecords(lines[..k + 1], parseRating) ==
      LoadRecords(lines[..k], parseRating) + LoadRecords([lines[k]], parseRating)
  {
    assert lines[..k + 1] == lines[..k] + [lines[k]];
    LoadConcat(lines[..k], [lines[k]], parseRating);
  }

  /** Records already loaded from the first k lines, followed by what line k
      loads, are the records of the first k + 1 lines. */
  lemma LoadStep(base: seq<Record>, lines: seq<string>, k: nat, before: seq<Record>, after: seq<Record>,
                 parseRating: string -> Rating)
    requires k < |lines|
    requires before == base + LoadRecords(lines[..k], parseRating)
    requires after == before + LoadRecords([lines[k]], parseRating)
    ensures after == base + LoadRecords(lines[..k + 1], parseRating)
  {
    LoadPrefixStep(lines, k, parseRating);
    assert after == base + (LoadRecords(lines[..k], parseRating) + LoadRecords([lines[k]], parseRating));
  }

  /** Loading a single line. */
  lemma LoadOne(line: string, parseRating: string -> Rating)
    ensures LoadRecords([line], parseRating) ==
      match ParseLine(line)
      case None => []
      case Some(f) => [FromFields(f, parseRating)]
  {
    assert [line][1..] == [];
  }

  /** A record survives the file when its name and its rating text are free of
      the delimiter and reading the rating text gives the rating back. */
  ghost predicate Persistable(r: Record, formatRating: Rating -> string, parseRating: string -> Rating)
  {
    Delimiter !in r.name && Delimiter !in formatRating(r.rating)
    && parseRating(formatRating(r.rating)) == r.rating
  }

  /** Saving and then loading gives back the same records in the same order
      when every record is persistable; genres may hold the delimiter. */
  lemma {:induction false} SaveLoadRoundTrip(s: seq<Record>, formatRating: Rating -> string, parseRating: string -> Rating)
    requires forall i :: 0 <= i < |s| ==> Persistable(s[i], formatRating, parseRating)
    ensures LoadRecords(SaveLines(s, formatRating), parseRating) == s
  {
    if |s| > 0 {
      var f := ToFields(s[0], formatRating);
      RoundTripIff(f);
      var lines := SaveLines(s, formatRating);
      assert lines[1..] == SaveLines(s[1..], formatRating);
      assert lines[0] == FormatLine(f);
      SaveLoadRoundTrip(s[1..], formatRating, parseRating);
    }
  }

  /** A record whose name holds the delimiter does not survive the file. */
  lemma NameWithDelimiterIsLost(r: Record, formatRating: Rating -> string, parseRating: string -> Rating)
    requires Delimiter in r.name && Delimiter !in formatRating(r.rating)
    ensures LoadRecords(SaveLines([r], formatRating), parseRating) != [r]
  {
    var f := ToFields(r, formatRating);
    NameWithDelimiterSplitsEarly(f);
    var k := FirstComma(r.name).value;
    assert [r][1..] == [];
    assert SaveLines([r], formatRating) == [FormatLine(f)];
    LoadOne(FormatLine(f), parseRating);
    var back := LoadRecords([FormatLine(f)], parseRating);
    assert back == [FromFields(ParseLine(FormatLine(f)).value, parseRating)];
    assert |back[0].name| == k < |r.name|;
  }

  /** A file whose lines all lack a second delimiter loads nothing. */
  lemma {:induction false} MalformedFileLoadsNothing(lines: seq<string>, parseRating: string -> Rating)
    requires forall i :: 0 <= i < |lines| ==> CountDelimiters(lines[i]) < 2
    ensures LoadRecords(lines, parseRating) == []
  {
    if |lines| > 0 {
      AcceptedIffAtLeastTwo(lines[0]);
      assert forall i :: 0 <= i < |lines| - 1 ==> lines[1..][i] == lines[i + 1];
      MalformedFileLoadsNothing(lines[1..], parseRating);
    }
  }
}
