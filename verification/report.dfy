/** The text `saveHashToFile` writes: a label line, the hash, a blank line and
    the generation date. The wall-clock timestamp is a parameter, and the file
    write itself is not modelled.
 */
module Report {

  import opened Wrappers

  const HashLabel: string := "SHA-256 Hash:\n"
  const DateLabel: string := "\n\nGeneration date: "

  /** The fields a report carries. */
  datatype Fields = Fields(hash: string, timestamp: string)

  /** The three writes of `saveHashToFile`, in order. */
  function ReportText(hash: string, timestamp: string): string
  {
    HashLabel + hash + DateLabel + timestamp
  }

  /** The hash sits at offset 14, right after the label line, and is
      followed at once by a blank line; the timestamp ends the text. */
  lemma ReportLayout(hash: string, timestamp: string)
    ensures var r := ReportText(hash, timestamp);
      && |r| == 14 + |hash| + 19 + |timestamp|
      && r[..14] == "SHA-256 Hash:\n"
      && r[14..14 + |hash|] == hash
      && r[14 + |hash|..16 + |hash|] == "\n\n"
      && r[|r| - |timestamp|..] == timestamp
  {
  }

  /** `s` is `p` followed by the rest of `s`. */
  lemma SplitAfter(s: string, p: string)
    requires StartsWith(s, p)
    ensures s == p + s[|p|..]
  {
    assert s == s[..|p|] + s[|p|..];
  }

  /** The index of the first `c` in `s`, if any. */
  function IndexOf(s: string, c: char): (k: Option<nat>)
    ensures k.Some? ==> k.value < |s| && s[k.value] == c
    ensures k.Some? ==> c !in s[..k.value]
    ensures k.None? <==> c !in s
  {
    if |s| == 0 then None
    else if s[0] == c then Some(0)
    else match IndexOf(s[1..], c)
      case Some(k) =>
        assert s[..k + 1] == [s[0]] + s[1..][..k];
        Some(k + 1)
      case None => None
  }

  /** `s` begins with `p`. */
  predicate StartsWith(s: string, p: string) {
    |p| <= |s| && s[..|p|] == p
  }

  /** Reads a report back: the label line, then the rest as `ReadBody` reads it. */
  function ParseReport(text: string): (f: Option<Fields>)
  {
    if StartsWith(text, HashLabel) then ReadBody(text[|HashLabel|..]) else None
  }

  /** Reads what follows the label line: the hash runs up to the next line
      break, which must open the date label; the timestamp is the rest. */
  function ReadBody(rest: string): (f: Option<Fields>)
  {
    match IndexOf(rest, '\n')
    case None => None
    case Some(k) =>
      if StartsWith(rest[k..], DateLabel) then Some(Fields(rest[..k], rest[k..][|DateLabel|..]))
      else None
  }

  /** The body of a report reads back as its hash and timestamp. */
  lemma ReadBodyOf(hash: string, timestamp: string)
    requires '\n' !in hash
    ensures ReadBody(hash + DateLabel + timestamp) == Some(Fields(hash, timestamp))
  {
    var rest := hash + DateLabel + timestamp;
    assert rest[|hash|] == '\n';
    var k := IndexOf(rest, '\n').value;
    assert rest[..k] == hash;
    assert rest[k..] == DateLabel + timestamp;
  }

  /** Whatever reads back as a body is the hash, the date label and the timestamp. */
  lemma BodyOfReadBody(rest: string)
    requires ReadBody(rest).Some?
    ensures '\n' !in ReadBody(rest).value.hash
    ensures ReadBody(rest).value.hash + DateLabel + ReadBody(rest).value.timestamp == rest
  {
    var k := IndexOf(rest, '\n').value;
    SplitAfter(rest[k..], DateLabel);
    assert rest == rest[..k] + rest[k..];
  }

  /** A report whose hash holds no line break reads back as its own fields. */
  lemma ParseReportText(hash: string, timestamp: string)
    requires '\n' !in hash
    ensures ParseReport(ReportText(hash, timestamp)) == Some(Fields(hash, timestamp))
  {
    var text := ReportText(hash, timestamp);
    assert text == HashLabel + (hash + DateLabel + timestamp);
    assert text[|HashLabel|..] == hash + DateLabel + timestamp;
    ReadBodyOf(hash, timestamp);
  }

  /** Whatever reads back as a report is exactly the report of what it reads
      back as, and its hash holds no line break. */
  lemma ReportTextParse(text: string)
    requires ParseReport(text).Some?
    ensures '\n' !in ParseReport(text).value.hash
    ensures ReportText(ParseReport(text).value.hash, ParseReport(text).value.timestamp) == text
  {
    var rest := text[|HashLabel|..];
    assert ParseReport(text) == ReadBody(rest);
    var f := ReadBody(rest).value;
    BodyOfReadBody(rest);
    SplitAfter(text, HashLabel);
    Regroup(HashLabel, f.hash, DateLabel, f.timestamp);
  }

  /** Concatenation regrouped to the right. */
  lemma Regroup(a: string, b: string, c: string, d: string)
    ensures a + b + c + d == a + (b + c + d)
  {
  }
}
