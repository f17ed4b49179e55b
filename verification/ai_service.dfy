/** The response half of `AIService.extractWordsFromImage`: reaching the
    reply text inside the decoded chat-completion JSON, and turning that text
    into `WordInfo` records, one per line of the form `word|/phonetic/|meaning`. */
module AIService {
  import opened Wrappers
  import opened Text
  import opened WordModel
  import opened Json

  const LineSeparator: char := '\n'
  const FieldSeparator: char := '|'

  /** The errors this part of the service reports: an `NSError` built by the
      service itself, with the localized description the user is shown, or
      whatever the JSON decoder threw, passed on as is. */
  datatype Failure =
    | NSError(domain: string, code: int, localizedDescription: string)
    | Thrown(description: string)

  /** The decoded top-level value is not a dictionary. */
  const NotAnObject := NSError("ParseError", -3, "无法解析JSON")
  /** The dictionary does not hold a string at `choices[0].message.content`. */
  const NoContent := NSError("ParseError", -4, "解析响应失败")

  /** Where the reply text sits in a chat-completion response. */
  const ContentPath := [Key("choices"), Index(0), Key("message"), Key("content")]

  /** `json["choices"] as? [[String: Any]]` succeeds. */
  predicate ChoicesAreObjects(doc: Json)
  {
    match At(doc, [Key("choices")])
    case Some(Array(items)) => AllObjects(items)
    case _ => false
  }

  /** The two guards on the decoded response: code -3 exactly when the top
      level is not a dictionary; otherwise the content string when `choices`
      is an array of dictionaries whose first has a dictionary `message` with
      a string `content`, and code -4 in every other case. */
  function ExtractContent(doc: Json): (r: Result<string, Failure>)
    ensures r == Err(NotAnObject) <==> !doc.Object?
    ensures r.Err? ==> r.error == NotAnObject || r.error == NoContent
    ensures r.Ok? <==> && doc.Object?
                       && ChoicesAreObjects(doc)
                       && At(doc, ContentPath).Some?
                       && At(doc, ContentPath).value.Str?
    ensures r.Ok? ==> At(doc, ContentPath) == Some(Str(r.value))
  {
    if !doc.Object? then Err(NotAnObject)
    else if "choices" !in doc.members then Err(NoContent)
    else
      var choices := doc.members["choices"];
      if !choices.Array? || !AllObjects(choices.items) || |choices.items| == 0 then Err(NoContent)
      else
        var first := choices.items[0].members;
        if "message" !in first || !first["message"].Object? then Err(NoContent)
        else
          var message := first["message"].members;
          if "content" !in message || !message["content"].Str? then Err(NoContent)
          else Ok(message["content"].s)
  }

  /** The array cast is all-or-nothing: a valid first choice does not help
      when a later element of `choices` is not a dictionary. */
  lemma LaterNonObjectChoiceFails()
    ensures var message := Object(map["content" := Str("cup")]);
            var first := Object(map["message" := message]);
            ExtractContent(Object(map["choices" := Array([first, Number(1.0)])])) == Err(NoContent)
  {
    var message := Object(map["content" := Str("cup")]);
    var first := Object(map["message" := message]);
    assert !Array([first, Number(1.0)]).items[1].Object?;
  }

  /** A well-formed response hands over the first choice's content. */
  lemma FirstChoiceContentExtracted()
    ensures var message := Object(map["role" := Str("assistant"), "content" := Str("cup|/kap/|bei")]);
            var first := Object(map["message" := message]);
            ExtractContent(Object(map["choices" := Array([first])])) == Ok("cup|/kap/|bei")
  {
  }

  /** A field as the parser can emit it: trimmed, and holding neither
      separator. */
  predicate CleanField(f: string)
  {
    IsTrimmed(f) && FieldSeparator !in f && LineSeparator !in f
  }

  predicate Clean(w: WordInfo)
  {
    CleanField(w.word) && CleanField(w.phonetic) && CleanField(w.chineseMeaning)
  }

  predicate AllClean(ws: seq<WordInfo>)
  {
    forall k :: 0 <= k < |ws| ==> Clean(ws[k])
  }

  /** One line of the reply: a record exactly when splitting on `|` gives
      three pieces, i.e. the line holds exactly two `|`; the fields are the
      trimmed pieces, which may be empty. */
  function ParseLine(line: string, id: Uuid): (w: Option<WordInfo>)
    ensures w.Some? <==> Count(line, FieldSeparator) == 2
    ensures w.Some? ==> w.value.id == id
    ensures w.Some? && LineSeparator !in line ==> Clean(w.value)
  {
    var pieces := Split(line, FieldSeparator);
    if |pieces| == 3 then
      var w := WordInfo(id, Trim(pieces[0]), Trim(pieces[1]), Trim(pieces[2]));
      assert LineSeparator !in line ==> Clean(w) by {
        if LineSeparator !in line {
          SplitPiecesFromInput(line, FieldSeparator, LineSeparator);
          TrimKeepsAbsent(pieces[0], FieldSeparator);
          TrimKeepsAbsent(pieces[1], FieldSeparator);
          TrimKeepsAbsent(pieces[2], FieldSeparator);
          TrimKeepsAbsent(pieces[0], LineSeparator);
          TrimKeepsAbsent(pieces[1], LineSeparator);
          TrimKeepsAbsent(pieces[2], LineSeparator);
        }
      }
      Some(w)
    else None
  }

  /** Every line of `lines` run through `ParseLine`; line `i` is stamped with
      `mint(i)`, standing in for the `UUID()` drawn when its record is built. */
  function ParseEach(lines: seq<string>, mint: nat -> Uuid): (xs: seq<Option<WordInfo>>)
    ensures |xs| == |lines|
    ensures forall i :: 0 <= i < |lines| ==> xs[i] == ParseLine(lines[i], mint(i))
  {
    if |lines| == 0 then []
    else ParseEach(lines[..|lines| - 1], mint) + [ParseLine(lines[|lines| - 1], mint(|lines| - 1))]
  }

  /** The reply parser: split on `\n`, parse each line, keep the records.
      There is at most one record per line, and every record is clean. */
  function ParseWords(content: string, mint: nat -> Uuid): (r: seq<WordInfo>)
    ensures |r| <= Count(content, LineSeparator) + 1
    ensures AllClean(r)
  {
    var lines := Split(content, LineSeparator);
    RecordsAreClean(lines, mint);
    CompactMap(ParseEach(lines, mint))
  }

  lemma RecordsAreClean(lines: seq<string>, mint: nat -> Uuid)
    requires forall i :: 0 <= i < |lines| ==> LineSeparator !in lines[i]
    ensures AllClean(CompactMap(ParseEach(lines, mint)))
  {
    var xs := ParseEach(lines, mint);
    var r := CompactMap(xs);
    var idx := SomeIndices(xs);
    CompactMapOrder(xs);
    forall k | 0 <= k < |r|
      ensures Clean(r[k])
    {
      var i := idx[k];
      assert xs[i] == ParseLine(lines[i], mint(i));
    }
  }

  /** Positions of the lines holding exactly two `|`, in increasing order:
      the lines that become records. */
  function RecordLines(lines: seq<string>): (idx: seq<nat>)
    ensures forall k :: 0 <= k < |idx| ==> idx[k] < |lines| && Count(lines[idx[k]], FieldSeparator) == 2
    ensures forall k, l :: 0 <= k < l < |idx| ==> idx[k] < idx[l]
    ensures forall i :: 0 <= i < |lines| && Count(lines[i], FieldSeparator) == 2 ==> i in idx
  {
    if |lines| == 0 then []
    else
      var init := RecordLines(lines[..|lines| - 1]);
      if Count(lines[|lines| - 1], FieldSeparator) == 2 then init + [|lines| - 1] else init
  }

  lemma {:induction false} RecordLinesAreKept(lines: seq<string>, mint: nat -> Uuid)
    ensures SomeIndices(ParseEach(lines, mint)) == RecordLines(lines)
  {
    if |lines| > 0 {
      var init := lines[..|lines| - 1];
      RecordLinesAreKept(init, mint);
      assert ParseEach(lines, mint)[..|lines| - 1] == ParseEach(init, mint);
    }
  }

  /** Records come out in line order, one per line holding exactly two `|`:
      the k-th record is the parse of the k-th such line. */
  lemma ParseWordsOrder(content: string, mint: nat -> Uuid)
    ensures var lines := Split(content, LineSeparator);
            var idx := RecordLines(lines);
            && |ParseWords(content, mint)| == |idx|
            && forall k :: 0 <= k < |idx| ==>
                 ParseWords(content, mint)[k] == ParseLine(lines[idx[k]], mint(idx[k])).value
  {
    var lines := Split(content, LineSeparator);
    CompactMapOrder(ParseEach(lines, mint));
    RecordLinesAreKept(lines, mint);
  }

  /** A line `a|b|c` with no `|` inside the pieces parses to the trimmed
      pieces; with `ParseLine`'s own contract this pins down every line. */
  lemma ParseLineFields(a: string, b: string, c: string, id: Uuid)
    requires FieldSeparator !in a && FieldSeparator !in b && FieldSeparator !in c
    ensures ParseLine(a + [FieldSeparator] + b + [FieldSeparator] + c, id)
            == Some(WordInfo(id, Trim(a), Trim(b), Trim(c)))
  {
    SplitThree(a, b, c);
  }

  lemma SplitThree(a: string, b: string, c: string)
    requires FieldSeparator !in a && FieldSeparator !in b && FieldSeparator !in c
    ensures Split(a + [FieldSeparator] + b + [FieldSeparator] + c, FieldSeparator) == [a, b, c]
  {
    var line := a + [FieldSeparator] + b + [FieldSeparator] + c;
    assert line == a + [FieldSeparator] + (b + [FieldSeparator] + c);
    SplitAtFirstSeparator(a, FieldSeparator, b + [FieldSeparator] + c);
    SplitAtFirstSeparator(b, FieldSeparator, c);
    SplitWithoutSeparator(c, FieldSeparator);
  }

  /** Every record line has the shape `ParseLineFields` covers. */
  lemma RecordLineShape(line: string)
    requires Count(line, FieldSeparator) == 2
    ensures exists a, b, c ::
              && FieldSeparator !in a && FieldSeparator !in b && FieldSeparator !in c
              && line == a + [FieldSeparator] + b + [FieldSeparator] + c
  {
    var p := Split(line, FieldSeparator);
    JoinSplit(line, FieldSeparator);
    assert p[1..][1..] == [p[2]];
    assert Join(p[1..], FieldSeparator) == p[1] + [FieldSeparator] + p[2];
    assert line == p[0] + [FieldSeparator] + p[1] + [FieldSeparator] + p[2];
  }

  /** An empty reply gives no records. */
  lemma EmptyReplyHasNoWords(mint: nat -> Uuid)
    ensures ParseWords("", mint) == []
  {
    assert Split("", LineSeparator) == [""];
    assert Count("", FieldSeparator) == 0;
    assert ParseEach([""], mint) == [None];
    assert ParseEach([""], mint)[..0] == [];
  }

  /** Fields are not required to be non-empty: `||` is a record. */
  lemma EmptyFieldsAreKept(mint: nat -> Uuid)
    ensures ParseWords("||", mint) == [WordInfo(mint(0), "", "", "")]
  {
    var line := "||";
    var w := WordInfo(mint(0), "", "", "");
    assert line == "" + [FieldSeparator] + "" + [FieldSeparator] + "";
    ParseLineFields("", "", "", mint(0));
    assert Trim("") == "";
    assert ParseLine(line, mint(0)) == Some(w);
    SplitWithoutSeparator(line, LineSeparator);
    assert ParseEach([line], mint) == [Some(w)];
    assert CompactMap([Some(w)]) == [w] by {
      assert [Some(w)][..0] == [];
    }
  }

  /** One record in the line format the service asks the model for. */
  function FormatLine(w: WordInfo): string
  {
    w.word + [FieldSeparator] + w.phonetic + [FieldSeparator] + w.chineseMeaning
  }

  function FormatEach(ws: seq<WordInfo>): (lines: seq<string>)
    ensures |lines| == |ws|
    ensures forall k :: 0 <= k < |ws| ==> lines[k] == FormatLine(ws[k])
  {
    if |ws| == 0 then [] else FormatEach(ws[..|ws| - 1]) + [FormatLine(ws[|ws| - 1])]
  }

  /** A reply listing `ws` one per line. */
  function Format(ws: seq<WordInfo>): string
  {
    Join(FormatEach(ws), LineSeparator)
  }

  /** Parsing a formatted list of clean records gives the same records back,
      in order, each with the id minted for its line. */
  lemma ParseFormat(ws: seq<WordInfo>, mint: nat -> Uuid)
    requires AllClean(ws)
    ensures |ParseWords(Format(ws), mint)| == |ws|
    ensures forall k :: 0 <= k < |ws| ==> ParseWords(Format(ws), mint)[k] == ws[k].(id := mint(k))
  {
    if |ws| == 0 {
      EmptyReplyHasNoWords(mint);
    } else {
      var lines := FormatEach(ws);
      FormatLinesAreRecordLines(ws, mint);
      forall k | 0 <= k < |ws|
        ensures |ParseWords(Format(ws), mint)| == |ws|
        ensures ParseWords(Format(ws), mint)[k] == ws[k].(id := mint(k))
      {
        ParseJoinedRecordLines(lines, mint, k);
      }
    }
  }

  /** The round trip in terms of the record's own `==`: formatting then
      parsing gives a list equal to the original. */
  lemma ParseFormatRoundTrip(ws: seq<WordInfo>, mint: nat -> Uuid)
    requires AllClean(ws)
    ensures SameList(ParseWords(Format(ws), mint), ws)
  {
    ParseFormat(ws, mint);
  }

  lemma FormatLinesAreRecordLines(ws: seq<WordInfo>, mint: nat -> Uuid)
    requires AllClean(ws)
    ensures forall k :: 0 <= k < |ws| ==>
              && LineSeparator !in FormatEach(ws)[k]
              && Count(FormatEach(ws)[k], FieldSeparator) == 2
              && ParseLine(FormatEach(ws)[k], mint(k)) == Some(ws[k].(id := mint(k)))
  {
    var lines := FormatEach(ws);
    forall k | 0 <= k < |ws|
      ensures LineSeparator !in lines[k] && Count(lines[k], FieldSeparator) == 2
      ensures ParseLine(lines[k], mint(k)) == Some(ws[k].(id := mint(k)))
    {
      ParseFormatLine(ws[k], mint(k));
    }
  }

  /** A reply made only of record lines yields one record per line: the
      k-th record is the parse of the k-th line. */
  lemma ParseJoinedRecordLines(lines: seq<string>, mint: nat -> Uuid, k: nat)
    requires k < |lines|
    requires forall i :: 0 <= i < |lines| ==> LineSeparator !in lines[i] && Count(lines[i], FieldSeparator) == 2
    ensures |ParseWords(Join(lines, LineSeparator), mint)| == |lines|
    ensures ParseWords(Join(lines, LineSeparator), mint)[k] == ParseLine(lines[k], mint(k)).value
  {
    SplitJoin(lines, LineSeparator);
    var xs := ParseEach(lines, mint);
    ParseWordsUnfolds(Join(lines, LineSeparator), mint);
    RecordLinesParse(lines, mint);
    CompactMapAllSome(xs);
    assert CompactMap(xs)[k] == xs[k].value;
  }

  lemma ParseWordsUnfolds(content: string, mint: nat -> Uuid)
    ensures ParseWords(content, mint) == CompactMap(ParseEach(Split(content, LineSeparator), mint))
  {
  }

  lemma RecordLinesParse(lines: seq<string>, mint: nat -> Uuid)
    requires forall k :: 0 <= k < |lines| ==> Count(lines[k], FieldSeparator) == 2
    ensures forall i :: 0 <= i < |lines| ==> ParseEach(lines, mint)[i].Some?
  {
  }

  /** One clean record survives formatting and parsing, up to its id. */
  lemma ParseFormatLine(w: WordInfo, id: Uuid)
    requires Clean(w)
    ensures LineSeparator !in FormatLine(w)
    ensures ParseLine(FormatLine(w), id) == Some(w.(id := id))
  {
    assert LineSeparator !in FormatLine(w) by {
      assert LineSeparator !in w.word && LineSeparator !in w.phonetic && LineSeparator !in w.chineseMeaning;
      assert LineSeparator !in [FieldSeparator];
    }
    ParseLineFields(w.word, w.phonetic, w.chineseMeaning, id);
    TrimFixpoint(w.word);
    TrimFixpoint(w.phonetic);
    TrimFixpoint(w.chineseMeaning);
  }

  /** Records parsed from the same reply are equal whatever ids they drew. */
  lemma ParseWordsIgnoresIds(content: string, mint1: nat -> Uuid, mint2: nat -> Uuid)
    ensures SameList(ParseWords(content, mint1), ParseWords(content, mint2))
  {
    ParseWordsOrder(content, mint1);
    ParseWordsOrder(content, mint2);
  }

  /** The completion handler from the decoded response onwards: a decoder
      error is passed on, a shape error is reported with its code, and
      otherwise the result is the parse of the content string. */
  function HandleResponse(decoded: Result<Json, string>, mint: nat -> Uuid): (r: Result<seq<WordInfo>, Failure>)
    ensures decoded.Err? ==> r == Err(Thrown(decoded.error))
    ensures decoded.Ok? && !decoded.value.Object? ==> r == Err(NotAnObject)
    ensures decoded.Ok? && decoded.value.Object? && r.Err? ==> r == Err(NoContent)
    ensures r.Ok? <==> decoded.Ok? && ExtractContent(decoded.value).Ok?
    ensures r.Ok? ==> && At(decoded.value, ContentPath).Some?
                      && At(decoded.value, ContentPath).value.Str?
                      && r.value == ParseWords(At(decoded.value, ContentPath).value.s, mint)
  {
    match decoded
    case Err(e) => Err(Thrown(e))
    case Ok(doc) =>
      match ExtractContent(doc)
      case Err(f) => Err(f)
      case Ok(content) => Ok(ParseWords(content, mint))
  }
}
