/** `generate` of server/src/services/suggestionService.js: turns extracted
    text into a list of suggestion strings, one per non-blank line of the
    generative model's reply. The call to the model is not modelled; what it
    produced (a reply text, no text, or a thrown error) is a parameter. */
module SuggestionService {
  import opened Wrappers
  import opened JsStrings

  /** What `ai.models.generateContent` produced: a response whose `text` may
      be missing, or a thrown error (network, authentication, quota,
      malformed response). */
  datatype Reply = Threw | Responded(text: Option<string>)

  /** `.map(s => s.trim()).filter(Boolean)`: each line trimmed, the ones that
      became empty dropped, order kept. */
  function CleanLines(lines: seq<string>): (r: seq<string>)
    ensures |r| <= |lines|
    ensures forall k :: 0 <= k < |r| ==> r[k] != "" && IsTrimmed(r[k])
  {
    if |lines| == 0 then []
    else
      var t := Trim(lines[0]);
      if t == "" then CleanLines(lines[1..]) else [t] + CleanLines(lines[1..])
  }

  /** The reply text split on `"\n"`, then cleaned. */
  function ParseSuggestions(raw: string): (r: seq<string>)
    ensures forall k :: 0 <= k < |r| ==> r[k] != "" && IsTrimmed(r[k]) && '\n' !in r[k]
  {
    var lines := Split(raw, '\n');
    CleanLinesKeepOut(lines, '\n');
    CleanLines(lines)
  }

  /** `generate(text)`: `[]` for empty or whitespace-only text, whatever the
      model would have replied (so the model is not consulted); `[]` when the
      call threw; otherwise the parsed reply, a missing reply text counting
      as `""`. */
  function Generate(text: string, reply: Reply): (r: seq<string>)
    ensures AllWhitespace(text) ==> r == []
    ensures reply.Threw? ==> r == []
    ensures !AllWhitespace(text) && reply.Responded? ==> r == ParseSuggestions(reply.text.GetOr(""))
    ensures forall k :: 0 <= k < |r| ==> r[k] != "" && IsTrimmed(r[k])
  {
    TrimEmptyIff(text);
    if Trim(text) == "" then []
    else
      match reply
      case Threw => []
      case Responded(t) =>
        var suggestions := ParseSuggestions(t.GetOr(""));
        if |suggestions| > 0 then suggestions else []
  }

  /** One line contributes its trim, unless it is blank. */
  lemma CleanLine(l: string)
    ensures CleanLines([l]) == if AllWhitespace(l) then [] else [Trim(l)]
  {
    TrimEmptyIff(l);
    assert [l][1..] == [];
  }

  /** Cleaning works line by line: the result keeps the order of the lines. */
  lemma {:induction false} CleanLinesAppend(a: seq<string>, b: seq<string>)
    ensures CleanLines(a + b) == CleanLines(a) + CleanLines(b)
  {
    if |a| > 0 {
      assert (a + b)[0] == a[0];
      assert (a + b)[1..] == a[1..] + b;
      CleanLinesAppend(a[1..], b);
    } else {
      assert a + b == b;
    }
  }

  /** Trimming never introduces a character. */
  lemma TrimKeepsOut(s: string, c: char)
    requires c !in s
    ensures c !in Trim(s)
  {
    var k := LeadingWhitespace(s);
    var r := Trim(s);
    TrimDecompose(s);
    forall i | 0 <= i < |r| ensures r[i] != c {
      assert r[i] == s[k + i];
    }
  }

  lemma {:induction false} CleanLinesKeepOut(lines: seq<string>, c: char)
    requires forall j :: 0 <= j < |lines| ==> c !in lines[j]
    ensures forall k :: 0 <= k < |CleanLines(lines)| ==> c !in CleanLines(lines)[k]
  {
    if |lines| > 0 {
      TrimKeepsOut(lines[0], c);
      CleanLinesKeepOut(lines[1..], c);
    }
  }

  /** Lines that contain a non-whitespace character. */
  function CountNonBlank(lines: seq<string>): (n: nat)
    ensures n <= |lines|
  {
    if |lines| == 0 then 0
    else (if AllWhitespace(lines[0]) then 0 else 1) + CountNonBlank(lines[1..])
  }

  lemma {:induction false} CleanLinesCount(lines: seq<string>)
    ensures |CleanLines(lines)| == CountNonBlank(lines)
  {
    if |lines| > 0 {
      TrimEmptyIff(lines[0]);
      CleanLinesCount(lines[1..]);
    }
  }

  /** One suggestion per line that holds a non-whitespace character; nothing
      caps the count at the five the prompt asks for. */
  lemma SuggestionCount(raw: string)
    ensures |ParseSuggestions(raw)| == CountNonBlank(Split(raw, '\n'))
  {
    CleanLinesCount(Split(raw, '\n'));
  }

  /** Suggestions already clean pass through cleaning unchanged. */
  lemma {:induction false} CleanLinesOfClean(xs: seq<string>)
    requires forall k :: 0 <= k < |xs| ==> xs[k] != "" && IsTrimmed(xs[k])
    ensures CleanLines(xs) == xs
  {
    if |xs| > 0 {
      TrimOfTrimmed(xs[0]);
      CleanLinesOfClean(xs[1..]);
      assert xs == [xs[0]] + xs[1..];
    }
  }

  /** Round trip: a reply listing clean suggestions one per line parses back
      to exactly that list, however long. */
  lemma ParseJoin(xs: seq<string>)
    requires forall k :: 0 <= k < |xs| ==> xs[k] != "" && IsTrimmed(xs[k]) && '\n' !in xs[k]
    ensures ParseSuggestions(Join(xs, '\n')) == xs
  {
    if |xs| == 0 {
      assert Split("", '\n') == [""];
      CleanLine("");
    } else {
      SplitJoin(xs, '\n');
      CleanLinesOfClean(xs);
    }
  }

  /** Parsing is idempotent: re-joining parsed suggestions with `"\n"` and
      parsing again gives the same list. */
  lemma ParseIdempotent(raw: string)
    ensures ParseSuggestions(Join(ParseSuggestions(raw), '\n')) == ParseSuggestions(raw)
  {
    ParseJoin(ParseSuggestions(raw));
  }

  /** A response without text yields no suggestions. */
  lemma MissingReplyText(text: string)
    ensures Generate(text, Responded(None)) == []
  {
    CleanLine("");
  }

  /** For non-blank text, a reply with any number of clean lines, six say,
      yields all of them. */
  lemma NoCapAtFive(text: string, xs: seq<string>)
    requires !AllWhitespace(text)
    requires forall k :: 0 <= k < |xs| ==> xs[k] != "" && IsTrimmed(xs[k]) && '\n' !in xs[k]
    ensures Generate(text, Responded(Some(Join(xs, '\n')))) == xs
  {
    ParseJoin(xs);
  }
}
