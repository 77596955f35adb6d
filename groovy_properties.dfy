/**
 * `parse_groovy_properties` (src/plugins/jenkins/parse_groovy_properties.rs):
 * read `key: 'value'` lines of a Groovy properties file into a map. Blank
 * lines, `//` comments and lines without a colon are skipped; a line splits
 * at its first colon; a later line for the same key overwrites an earlier
 * one.
 */
module GroovyProperties {
  import opened Wrappers
  import opened Text

  /** Drop one trailing carriage return. */
  function StripCr(line: string): (r: string)
    ensures r == line || (line == r + ['\r'])
  {
    if line != [] && line[|line| - 1] == '\r' then line[..|line| - 1] else line
  }

  /**
   * `str::lines`: the pieces between line feeds. A piece ended by a line feed
   * loses one trailing carriage return; a final empty piece is not a line, so
   * empty content has no lines.
   */
  function Lines(content: string): (lines: seq<string>)
    ensures |lines| <= |Split(content, '\n')|
  {
    var pieces := Split(content, '\n');
    var ended := pieces[..|pieces| - 1];
    var last := pieces[|pieces| - 1];
    var terminated := seq(|ended|, i requires 0 <= i < |ended| => StripCr(ended[i]));
    if last == [] then terminated else terminated + [last]
  }

  /**
   * The lines are the line-feed-separated pieces of the content, each ended
   * piece without one trailing carriage return, and the last piece only when
   * it is not empty. No line holds a line feed, and empty content has no lines.
   */
  lemma LinesOfContent(content: string)
    ensures var pieces, lines := Split(content, '\n'), Lines(content);
      && |lines| == (if pieces[|pieces| - 1] == [] then |pieces| - 1 else |pieces|)
      && (forall i :: 0 <= i < |pieces| - 1 ==> lines[i] == StripCr(pieces[i]))
      && (pieces[|pieces| - 1] != [] ==> lines[|lines| - 1] == pieces[|pieces| - 1])
      && (forall i :: 0 <= i < |lines| ==> '\n' !in lines[i])
    ensures Lines("") == []
  {
    var pieces, lines := Split(content, '\n'), Lines(content);
    SplitPiecesFree(content, '\n');
    forall i | 0 <= i < |lines| ensures '\n' !in lines[i] {
      assert '\n' !in pieces[i];
      if i < |pieces| - 1 {
        assert lines[i] == StripCr(pieces[i]);
      }
    }
  }

  /**
   * A line that is neither blank nor a comment, already trimmed: the trimmed
   * key before the first colon and the value after it, trimmed, stripped of
   * surrounding single quotes and trimmed again; `None` without a colon.
   */
  function ParsePair(trimmed: string): Option<(string, string)> {
    match Find(trimmed, ':')
    case None => None
    case Some(pos) => Some((Trim(trimmed[..pos]), Trim(TrimMatches(Trim(trimmed[pos + 1..]), '\''))))
  }

  /** One line of the loop: `None` for a line that is skipped. */
  function ParseLine(line: string): Option<(string, string)> {
    var trimmed := Trim(line);
    if trimmed == [] || StartsWith(trimmed, "//") then None else ParsePair(trimmed)
  }

  /** Trimming twice is trimming once. */
  lemma TrimIdempotent(s: string)
    ensures Trim(Trim(s)) == Trim(s)
  {
    TrimIsSlice(s);
    TrimNoop(Trim(s));
  }

  /** Trimming adds no character. */
  lemma TrimAddsNothing(s: string, c: char)
    requires c !in s
    ensures c !in Trim(s)
  {
    TrimIsSlice(s);
  }

  /** A parsed key holds no colon, and key and value carry no surrounding whitespace. */
  lemma ParsedPairShape(line: string)
    ensures ParseLine(line).Some? ==> ':' !in ParseLine(line).value.0
    ensures ParseLine(line).Some? ==>
      var (key, value) := ParseLine(line).value;
      Trim(key) == key && Trim(value) == value
  {
    var trimmed := Trim(line);
    var found := Find(trimmed, ':');
    if ParseLine(line).Some? && found.Some? {
      var before, after := trimmed[..found.value], TrimMatches(Trim(trimmed[found.value + 1..]), '\'');
      TrimAddsNothing(before, ':');
      TrimIdempotent(before);
      TrimIdempotent(after);
    }
  }

  /** Each line's parse, in order. */
  function ParsedLines(lines: seq<string>): (parsed: seq<Option<(string, string)>>)
    ensures |parsed| == |lines|
    ensures forall i :: 0 <= i < |lines| ==> parsed[i] == ParseLine(lines[i])
  {
    seq(|lines|, i requires 0 <= i < |lines| => ParseLine(lines[i]))
  }

  /** The map the loop builds: each parsed pair is inserted in turn. */
  function Collect(parsed: seq<Option<(string, string)>>): map<string, string>
    decreases |parsed|
  {
    if parsed == [] then map[]
    else
      var before := Collect(parsed[..|parsed| - 1]);
      match parsed[|parsed| - 1]
      case None => before
      case Some((key, value)) => before[key := value]
  }

  /** Collecting one more pair inserts it into the map collected so far. */
  lemma CollectStep(parsed: seq<Option<(string, string)>>, i: nat)
    requires i < |parsed|
    ensures Collect(parsed[..i + 1]) ==
      if parsed[i].Some? then Collect(parsed[..i])[parsed[i].value.0 := parsed[i].value.1] else Collect(parsed[..i])
  {
    assert parsed[..i + 1][..i] == parsed[..i];
  }

  function ParseGroovyProperties(content: string): map<string, string> {
    Collect(ParsedLines(Lines(content)))
  }

  /** The loop as the source writes it: skip, or insert into the map. */
  method ParseGroovyPropertiesLoop(content: string) returns (properties: map<string, string>)
    ensures properties == ParseGroovyProperties(content)
  {
    var lines := Lines(content);
    ghost var parsed := ParsedLines(lines);
    properties := map[];
    var i := 0;
    while i < |lines|
      invariant 0 <= i <= |lines|
      invariant properties == Collect(parsed[..i])
    {
      var pair := ParseLine(lines[i]);
      CollectStep(parsed, i);
      if pair.Some? {
        properties := properties[pair.value.0 := pair.value.1];
      }
      i := i + 1;
    }
    assert parsed[..|lines|] == parsed;
  }

  // ---------------------------------------------------------------------------
  // What the parser promises

  /** Blank lines, comments and lines without a colon set nothing. */
  lemma SkippedLines(line: string)
    requires Trim(line) == [] || StartsWith(Trim(line), "//") || ':' !in line
    ensures ParseLine(line) == None
  {
    TrimIsSlice(line);
    var t := Trim(line);
    if t != [] && !StartsWith(t, "//") {
      var i, j :| 0 <= i <= j <= |line| && t == line[i..j];
      assert ':' !in t;
    }
  }

  /** `p` sets `key`. */
  predicate Sets(p: Option<(string, string)>, key: string) {
    p.Some? && p.value.0 == key
  }

  /**
   * A key is in the map exactly when some pair sets it, and its value is the
   * one set by the last such pair: later pairs overwrite earlier ones.
   */
  lemma {:induction false} LastWriteWins(parsed: seq<Option<(string, string)>>, key: string)
    ensures key in Collect(parsed) <==> exists i :: 0 <= i < |parsed| && Sets(parsed[i], key)
    ensures key in Collect(parsed) ==>
      exists i :: 0 <= i < |parsed| && parsed[i] == Some((key, Collect(parsed)[key]))
        && forall j :: i < j < |parsed| ==> !Sets(parsed[j], key)
    decreases |parsed|
  {
    if parsed != [] {
      var init, last := parsed[..|parsed| - 1], parsed[|parsed| - 1];
      LastWriteWins(init, key);
      var m := Collect(parsed);
      if Sets(last, key) {
        assert last == Some((key, m[key]));
      } else {
        assert key in m <==> key in Collect(init);
        if key in m {
          var i :| 0 <= i < |init| && init[i] == Some((key, m[key]))
            && forall j :: i < j < |init| ==> !Sets(init[j], key);
          assert parsed[i] == init[i];
          forall j | i < j < |parsed| ensures !Sets(parsed[j], key) {
            if j < |parsed| - 1 { assert parsed[j] == init[j]; }
          }
        }
        if exists i :: 0 <= i < |parsed| && Sets(parsed[i], key) {
          var i :| 0 <= i < |parsed| && Sets(parsed[i], key);
          assert i < |parsed| - 1 && init[i] == parsed[i];
        }
      }
      if exists i :: 0 <= i < |init| && Sets(init[i], key) {
        var i :| 0 <= i < |init| && Sets(init[i], key);
        assert parsed[i] == init[i];
      }
    }
  }

  /** For the file itself: a key is set by some line, and by no later line with another value. */
  lemma PropertyIsLastLine(content: string, key: string)
    ensures var lines := Lines(content);
      key in ParseGroovyProperties(content) <==> exists i :: 0 <= i < |lines| && Sets(ParseLine(lines[i]), key)
    ensures var lines := Lines(content);
      key in ParseGroovyProperties(content) ==>
        exists i :: 0 <= i < |lines| && ParseLine(lines[i]) == Some((key, ParseGroovyProperties(content)[key]))
          && forall j :: i < j < |lines| ==> !Sets(ParseLine(lines[j]), key)
  {
    var lines := Lines(content);
    var parsed := ParsedLines(lines);
    LastWriteWins(parsed, key);
  }

  /** Empty content has no lines, hence no properties. */
  lemma EmptyContentEmptyMap()
    ensures ParseGroovyProperties("") == map[]
  {
    assert Lines("") == [];
    assert ParsedLines([]) == [];
  }

  lemma TrimKeyExample()
    ensures Trim("jdk ") == "jdk"
  {
    PrintableIsNotWhitespace('j');
    PrintableIsNotWhitespace('k');
    var t := TrimStartBy("jdk ", WhitespaceChars);
    assert t == "jdk ";
    assert TrimEndBy(t, WhitespaceChars) == "jdk" by {
      assert "jdk "[..3] == "jdk";
    }
  }

  lemma TrimValueExample()
    ensures Trim(" '17'") == "'17'"
  {
    assert " '17'"[1..] == "'17'";
    PrintableIsNotWhitespace('\'');
    assert TrimStartBy(" '17'", WhitespaceChars) == "'17'";
  }

  lemma StripQuotesExample()
    ensures TrimMatches("'17'", '\'') == "17"
  {
    assert "'17'"[1..] == "17'";
    assert "17'"[..2] == "17";
  }

  /** `jdk : '17'` sets `jdk` to `17`: both sides are trimmed and the quotes removed. */
  lemma QuotedValueExample()
    ensures ParseLine("jdk : '17'") == Some(("jdk", "17"))
  {
    var line := "jdk : '17'";
    PrintableIsNotWhitespace('j');
    PrintableIsNotWhitespace('\'');
    TrimNoop(line);
    assert !StartsWith(line, "//");
    QuotedPairExample();
  }

  lemma QuotedPairExample()
    ensures ParsePair("jdk : '17'") == Some(("jdk", "17"))
  {
    var line := "jdk : '17'";
    ColonExample();
    assert line[..4] == "jdk " && line[5..] == " '17'";
    TrimKeyExample();
    TrimValueExample();
    StripQuotesExample();
    PrintableIsNotWhitespace('1');
    PrintableIsNotWhitespace('7');
    TrimNoop("17");
  }

  lemma ColonExample()
    ensures Find("jdk : '17'", ':') == Some(4)
  {
    var line := "jdk : '17'";
    assert line[4] == ':' && ':' !in line[..4];
  }
}
