/** How the OpenRouter provider turns the text of a chat completion into a
    translation result (OpenRouterTranslationProvider._parse_response). */
module ResponseParser {
  import opened Text
  import opened JsonValue
  import opened Wrappers

  /** The result of parsing: a translation result, or the TypeError Python
      raises when the decoded value is not a dict and "original" is assigned
      into it. The TypeError escapes the parser. */
  datatype ParseOutcome = Parsed(result: Dict) | TypeError

  /** content[content.find('{'):]: the text from the first '{' on. Without a
      '{' the index is -1, and the slice keeps only the last character. */
  function CutAtBrace(content: string): (r: string)
    ensures Find(content, '{') >= 0 ==> r == content[Find(content, '{')..] && StartsWith(r, "{")
    ensures Find(content, '{') < 0 && content != [] ==> r == [content[|content| - 1]]
    ensures content == [] ==> r == []
  {
    var i := Find(content, '{');
    if i >= 0 then content[i..]
    else if content == [] then []
    else content[|content| - 1..]
  }

  /** The code-fence removal: an opening ```json or ``` is cut and the rest
      stripped, then a closing ``` is cut and the rest stripped. */
  function StripFences(content: string): string {
    var head :=
      if StartsWith(content, "```json") then Strip(content[7..])
      else if StartsWith(content, "```") then Strip(content[3..])
      else content;
    if EndsWith(head, "```") then Strip(head[..|head| - 3]) else head
  }

  /** Renames "grammatical_case" to "grammatical case" when only the former
      is present. */
  function NormalizeKeys(d: Dict): (r: Dict)
    ensures "grammatical_case" in d && "grammatical case" !in d ==>
              "grammatical_case" !in r && "grammatical case" in r
              && r["grammatical case"] == d["grammatical_case"]
              && r.Keys == d.Keys - {"grammatical_case"} + {"grammatical case"}
    ensures !("grammatical_case" in d && "grammatical case" !in d) ==> r == d
    ensures forall k :: k in d && k != "grammatical_case" ==> k in r && r[k] == d[k]
  {
    if "grammatical_case" in d && "grammatical case" !in d then
      (d - {"grammatical_case"})["grammatical case" := d["grammatical_case"]]
    else d
  }

  /** The last resort: the (sliced) content as translation, the other
      fields empty. */
  function Fallback(content: string, word: string): Dict {
    map["translation" := JStr(content),
        "part_of_speech" := JStr(""),
        "grammatical case" := JStr(""),
        "example_ru" := JStr(""),
        "example_de" := JStr(""),
        "original" := JStr(word)]
  }

  /** The text between the first '{' and the last '}', when there is one. */
  function BraceSpan(content: string): Option<string>
  {
    var start := Find(content, '{');
    var end := RFind(content, '}') + 1;
    if start >= 0 && end > start then Some(content[start..end]) else None
  }

  /** Second attempt, on the brace span: the keys are kept as decoded. */
  function ParseSpan(content: string, word: string, loads: Loads): ParseOutcome {
    match BraceSpan(content)
    case Some(span) =>
      (match loads(span)
       case Decoded(JObj(m)) => Parsed(m["original" := JStr(word)])
       case Decoded(_) => TypeError
       case DecodeError => Parsed(Fallback(content, word)))
    case None => Parsed(Fallback(content, word))
  }

  /** The decoding stage, on the text as cut and de-fenced: the whole text
      first, with its keys normalized, then the brace span. */
  function ParseText(text: string, word: string, loads: Loads): (r: ParseOutcome)
    ensures r.Parsed? ==> "original" in r.result && r.result["original"] == JStr(word)
  {
    match loads(text)
    case Decoded(JObj(m)) => Parsed(NormalizeKeys(m["original" := JStr(word)]))
    case Decoded(_) => TypeError
    case DecodeError => ParseSpan(text, word, loads)
  }

  /** _parse_response(content, word). */
  function ParseResponse(content: string, word: string, loads: Loads): (r: ParseOutcome)
    ensures r.Parsed? ==> "original" in r.result && r.result["original"] == JStr(word)
  {
    ParseText(StripFences(CutAtBrace(content)), word, loads)
  }

  /** A cut response never begins with a code fence, so the opening-fence
      branches cannot fire: only a closing fence is ever removed. */
  lemma CutNeverOpensFence(content: string)
    ensures !StartsWith(CutAtBrace(content), "```")
    ensures StripFences(CutAtBrace(content)) == StripClosingFence(CutAtBrace(content))
  {
    var c := CutAtBrace(content);
    assert !StartsWith(c, "```") && !StartsWith(c, "```json") by {
      if |c| >= 3 {
        assert c[0] == '{';
        assert c[..3][0] == '{';
        if |c| >= 7 { assert c[..7][0] == '{'; }
      }
    }
  }

  function StripClosingFence(content: string): string {
    if EndsWith(content, "```") then Strip(content[..|content| - 3]) else content
  }

  /** A response with a '{' still begins with '{' once the fences are cut. */
  lemma FencedBraceStaysBrace(content: string)
    requires Find(content, '{') >= 0
    ensures StartsWith(StripFences(CutAtBrace(content)), "{")
  {
    var c := CutAtBrace(content);
    CutNeverOpensFence(content);
    if EndsWith(c, "```") {
      var inner := c[..|c| - 3];
      assert inner[0] == '{';
      StripSpec(inner);
      assert LStrip(inner) == inner;
      var r := Strip(inner);
      assert r == RStrip(inner);
      assert r != [] && r[0] == '{' by {
        assert !IsSpace(inner[0]);
      }
    }
  }

  /** With a real JSON decoder, a response that contains '{' never makes the
      parser raise: every outcome is a translation result. */
  lemma {:induction false} NeverRaisesWithBrace(content: string, word: string, loads: Loads)
    requires ObjectsFromBraces(loads)
    requires Find(content, '{') >= 0
    ensures ParseResponse(content, word, loads).Parsed?
  {
    var text := StripFences(CutAtBrace(content));
    FencedBraceStaysBrace(content);
    assert loads(text).DecodeError? || loads(text).value.JObj?;
    if loads(text).DecodeError? {
      match BraceSpan(text)
      case Some(span) =>
        var start := Find(text, '{');
        assert span[0] == '{';
        assert StartsWith(span, "{");
        assert loads(span).DecodeError? || loads(span).value.JObj?;
      case None =>
    }
  }

  /** A response without '{' is reduced to its last character before any
      parsing; when that character is not JSON, the fallback result carries
      that one character as its translation, not the response. */
  lemma NoBraceKeepsLastCharacter(content: string, word: string, loads: Loads)
    requires content != [] && '{' !in content
    requires loads([content[|content| - 1]]).DecodeError?
    ensures ParseResponse(content, word, loads) == Parsed(Fallback([content[|content| - 1]], word))
  {
    var c := [content[|content| - 1]];
    assert CutAtBrace(content) == c;
    assert !StartsWith(c, "```") && !StartsWith(c, "```json") && !EndsWith(c, "```");
    assert StripFences(c) == c;
    assert Find(c, '{') == -1 by { assert c[0] != '{'; }
    assert BraceSpan(c) == None;
  }

  /** A prose reply such as "Conclusion: привет means hello" is not JSON and
      has no '{': the fallback's translation is "o", its last character. */
  lemma ConclusionExample(loads: Loads)
    requires loads("o").DecodeError?
    ensures ParseResponse("Conclusion: привет means hello", "привет", loads)
            == Parsed(Fallback("o", "привет"))
  {
    var content := "Conclusion: привет means hello";
    assert '{' !in content;
    assert [content[|content| - 1]] == "o";
    NoBraceKeepsLastCharacter(content, "привет", loads);
  }

  /** A response without '{' whose last character decodes to something
      other than a dict raises TypeError. */
  lemma NoBraceNonObjectRaises(content: string, word: string, loads: Loads)
    requires content != [] && '{' !in content
    requires loads([content[|content| - 1]]).Decoded? && !loads([content[|content| - 1]]).value.JObj?
    ensures ParseResponse(content, word, loads) == TypeError
  {
    var c := [content[|content| - 1]];
    assert CutAtBrace(content) == c;
    assert !StartsWith(c, "```") && !StartsWith(c, "```json") && !EndsWith(c, "```");
    assert StripFences(c) == c;
  }

  /** A response without '{' that ends in a digit decodes to a number, and
      assigning "original" into a number raises TypeError. */
  lemma TrailingDigitRaises(loads: Loads)
    requires loads("7") == Decoded(JNum(7.0))
    ensures ParseResponse("The answer is 7", "семь", loads) == TypeError
  {
    var content := "The answer is 7";
    assert '{' !in content;
    assert [content[|content| - 1]] == "7";
    NoBraceNonObjectRaises(content, "семь", loads);
  }

  /** When the whole text decodes to a dict, that dict is returned with
      "original" set and "grammatical_case" renamed to "grammatical case"
      (unless the latter is already there). */
  lemma DirectParseNormalizes(text: string, word: string, loads: Loads, m: Dict)
    requires loads(text) == Decoded(JObj(m))
    requires "grammatical_case" in m && "grammatical case" !in m
    ensures var r := ParseText(text, word, loads);
            && r.Parsed?
            && "grammatical case" in r.result && "grammatical_case" !in r.result
            && r.result["grammatical case"] == m["grammatical_case"]
  {
  }

  /** When only the brace span decodes to a dict, its keys are kept as they
      are: a "grammatical_case" key is not renamed. */
  lemma SpanParseKeepsKeys(text: string, word: string, loads: Loads, span: string, m: Dict)
    requires loads(text).DecodeError?
    requires BraceSpan(text) == Some(span)
    requires loads(span) == Decoded(JObj(m))
    ensures ParseText(text, word, loads) == Parsed(m["original" := JStr(word)])
    ensures "grammatical_case" in m ==> "grammatical_case" in ParseText(text, word, loads).result
  {
  }

  /** When nothing decodes, the result is the fallback built from the text:
      its translation is the text and every other field but "original" is
      empty. */
  lemma NothingDecodesFallsBack(text: string, word: string, loads: Loads)
    requires loads(text).DecodeError?
    requires BraceSpan(text).None? || loads(BraceSpan(text).value).DecodeError?
    ensures var r := ParseText(text, word, loads);
            && r.Parsed?
            && r.result["translation"] == JStr(text)
            && r.result["original"] == JStr(word)
            && forall k :: k in r.result && k != "translation" && k != "original" ==> r.result[k] == JStr("")
  {
  }
}
