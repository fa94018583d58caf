/**
 * The comma-delimited line format of the movie file: a record is written
 * as name, genre and rating text joined by single commas, and read back by
 * splitting a line at its first and its last comma.
 */
module LineCodec {
  import opened Wrappers

  const Delimiter: char := ','

  /** The three text fields of one line; the rating is still text here. */
  datatype Fields = Fields(name: string, genre: string, ratingText: string)

  /** The line written for one record: name, genre and rating text joined by the delimiter. */
  function FormatLine(f: Fields): (line: string)
    ensures |line| == |f.name| + |f.genre| + |f.ratingText| + 2
    ensures line[|f.name|] == Delimiter && line[|f.name| + 1 + |f.genre|] == Delimiter
  {
    f.name + [Delimiter] + f.genre + [Delimiter] + f.ratingText
  }

  /** Position of the first delimiter (string::find), None for npos. */
  function FirstComma(s: string): (r: Option<nat>)
    ensures r.Some? ==> r.value < |s| && s[r.value] == Delimiter
    ensures r.Some? ==> forall j :: 0 <= j < r.value ==> s[j] != Delimiter
    ensures r.None? <==> Delimiter !in s
  {
    if |s| == 0 then None
    else if s[0] == Delimiter then Some(0)
    else match FirstComma(s[1..])
      case None => None
      case Some(k) => Some(k + 1)
  }

  /** Position of the last delimiter (string::rfind), None for npos. */
  function LastComma(s: string): (r: Option<nat>)
    ensures r.Some? ==> r.value < |s| && s[r.value] == Delimiter
    ensures r.Some? ==> forall j :: r.value < j < |s| ==> s[j] != Delimiter
    ensures r.None? <==> Delimiter !in s
  {
    if |s| == 0 then None
    else if s[|s| - 1] == Delimiter then Some(|s| - 1)
    else LastComma(s[..|s| - 1])
  }

  /** The line holds the delimiter at two different positions. */
  ghost predicate HasTwoDelimiters(s: string)
  {
    exists i, j :: 0 <= i < j < |s| && s[i] == Delimiter && s[j] == Delimiter
  }

  /** Number of delimiters in the line. */
  function CountDelimiters(s: string): nat
  {
    if |s| == 0 then 0
    else (if s[0] == Delimiter then 1 else 0) + CountDelimiters(s[1..])
  }

  /**
   * Reading one line: accepted only when the first and last delimiter are
   * both found and differ; the name is what precedes the first one, the
   * genre what lies between them and the rating text what follows the last.
   */
  function ParseLine(line: string): (r: Option<Fields>)
    ensures r.Some? ==> |r.value.name| + |r.value.genre| + |r.value.ratingText| + 2 == |line|
  {
    match FirstComma(line)
    case None => None
    case Some(p1) =>
      match LastComma(line)
      case None => None
      case Some(p2) =>
        if p1 == p2 then None
        else Some(Fields(line[..p1], line[p1 + 1..p2], line[p2 + 1..]))
  }

  /** A line is accepted exactly when it holds the delimiter at two positions. */
  lemma ParseLineAccepts(line: string)
    ensures ParseLine(line).Some? <==> HasTwoDelimiters(line)
  {
    if HasTwoDelimiters(line) {
      var i, j :| 0 <= i < j < |line| && line[i] == Delimiter && line[j] == Delimiter;
      assert FirstComma(line).value <= i;
      assert LastComma(line).value >= j;
    }
  }

  /** An accepted line is exactly its three fields joined by the delimiter, and
      its name and rating text hold no delimiter. */
  lemma ParseLineSplits(line: string)
    requires ParseLine(line).Some?
    ensures FormatLine(ParseLine(line).value) == line
    ensures Delimiter !in ParseLine(line).value.name
    ensures Delimiter !in ParseLine(line).value.ratingText
  {
    var p1, p2 := FirstComma(line).value, LastComma(line).value;
    Resplit(line, p1, p2);
    var f := ParseLine(line).value;
    assert f.name == line[..p1];
    assert f.ratingText == line[p2 + 1..];
    assert forall k :: 0 <= k < |f.ratingText| ==> f.ratingText[k] == line[p2 + 1 + k];
  }

  /** Cutting a string at two positions and gluing the pieces back. */
  lemma Resplit(line: string, p1: nat, p2: nat)
    requires p1 < p2 < |line|
    ensures line == line[..p1] + [line[p1]] + line[p1 + 1..p2] + [line[p2]] + line[p2 + 1..]
  {
    assert line == line[..p1] + line[p1..];
    assert line[p1..] == [line[p1]] + line[p1 + 1..p2] + line[p2..];
    assert line[p2..] == [line[p2]] + line[p2 + 1..];
  }

  /** The acceptance rule in counting terms: at least two delimiters. */
  lemma {:induction false} AcceptedIffAtLeastTwo(line: string)
    ensures ParseLine(line).Some? <==> CountDelimiters(line) >= 2
  {
    ParseLineAccepts(line);
    TwoDelimitersIffCount(line);
  }

  lemma {:induction false} TwoDelimitersIffCount(s: string)
    ensures HasTwoDelimiters(s) <==> CountDelimiters(s) >= 2
  {
    if |s| > 0 {
      var t := s[1..];
      TwoDelimitersIffCount(t);
      CountPositive(t);
      if HasTwoDelimiters(s) {
        var i, j :| 0 <= i < j < |s| && s[i] == Delimiter && s[j] == Delimiter;
        if i > 0 {
          assert t[i - 1] == Delimiter && t[j - 1] == Delimiter;
        } else {
          assert t[j - 1] == Delimiter;
        }
      }
      if CountDelimiters(s) >= 2 {
        if s[0] == Delimiter {
          var j :| 0 <= j < |t| && t[j] == Delimiter;
          assert s[0] == Delimiter && s[j + 1] == Delimiter;
        } else {
          var i, j :| 0 <= i < j < |t| && t[i] == Delimiter && t[j] == Delimiter;
          assert s[i + 1] == Delimiter && s[j + 1] == Delimiter;
        }
      }
    }
  }

  lemma {:induction false} CountPositive(s: string)
    ensures CountDelimiters(s) > 0 <==> Delimiter in s
  {
    if |s| > 0 {
      CountPositive(s[1..]);
      assert s == [s[0]] + s[1..];
    }
  }

  /**
   * Writing then reading a line gives back the same fields exactly when the
   * name and the rating text are free of the delimiter; the genre may hold
   * any number of delimiters.
   */
  lemma RoundTripIff(f: Fields)
    ensures ParseLine(FormatLine(f)) == Some(f) <==> Delimiter !in f.name && Delimiter !in f.ratingText
  {
    if Delimiter !in f.name && Delimiter !in f.ratingText {
      ParseJoined(f.name, f.genre, f.ratingText);
    } else if ParseLine(FormatLine(f)).Some? {
      ParseLineSplits(FormatLine(f));
    }
  }

  /**
   * The known limitation of the unescaped format: a name holding the
   * delimiter is cut at its first delimiter, and the rest of the name moves
   * into the genre.
   */
  lemma NameWithDelimiterSplitsEarly(f: Fields)
    requires Delimiter in f.name && Delimiter !in f.ratingText
    ensures FirstComma(f.name).Some?
    ensures
      var k := FirstComma(f.name).value;
      ParseLine(FormatLine(f)) ==
        Some(Fields(f.name[..k], f.name[k + 1..] + [Delimiter] + f.genre, f.ratingText))
  {
    var k := FirstComma(f.name).value;
    var head, tail := f.name[..k], f.name[k + 1..];
    assert f.name == head + [Delimiter] + tail;
    assert Delimiter !in head by {
      forall j | 0 <= j < |head| ensures head[j] != Delimiter { assert head[j] == f.name[j]; }
    }
    assert FormatLine(f) == head + [Delimiter] + (tail + [Delimiter] + f.genre) + [Delimiter] + f.ratingText;
    ParseJoined(head, tail + [Delimiter] + f.genre, f.ratingText);
  }

  /** A line built from a delimiter-free first part, any middle part and a
      delimiter-free last part splits back into exactly those parts. */
  lemma ParseJoined(a: string, b: string, c: string)
    requires Delimiter !in a && Delimiter !in c
    ensures ParseLine(a + [Delimiter] + b + [Delimiter] + c) == Some(Fields(a, b, c))
  {
    var line := a + [Delimiter] + b + [Delimiter] + c;
    var front := a + [Delimiter] + b;
    assert line == a + [Delimiter] + (b + [Delimiter] + c);
    assert line == front + [Delimiter] + c;
    FirstCommaAfter(a, b + [Delimiter] + c);
    LastCommaBefore(front, c);
    assert line[..|a|] == a;
    assert line[|a| + 1..|front|] == b;
    assert line[|front| + 1..] == c;
  }

  /** find(',') on a text whose first delimiter follows a delimiter-free prefix. */
  lemma {:induction false} FirstCommaAfter(a: string, b: string)
    requires Delimiter !in a
    ensures FirstComma(a + [Delimiter] + b) == Some(|a|)
  {
    if |a| > 0 {
      assert (a + [Delimiter] + b)[1..] == a[1..] + [Delimiter] + b;
      FirstCommaAfter(a[1..], b);
    } else {
      assert (a + [Delimiter] + b)[0] == Delimiter;
    }
  }

  /** rfind(',') on a text whose last delimiter precedes a delimiter-free suffix. */
  lemma {:induction false} LastCommaBefore(a: string, b: string)
    requires Delimiter !in b
    ensures LastComma(a + [Delimiter] + b) == Some(|a|)
  {
    var s := a + [Delimiter] + b;
    if |b| > 0 {
      assert s[..|s| - 1] == a + [Delimiter] + b[..|b| - 1];
      assert s[|s| - 1] == b[|b| - 1];
      LastCommaBefore(a, b[..|b| - 1]);
    } else {
      assert s[|s| - 1] == Delimiter;
    }
  }
}
