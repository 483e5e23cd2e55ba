/**
  Tolerant JSON extraction from a model reply (`extract_json` and the
  direct-then-fallback parse in `analyze_info_anchors` / `analyze_objections`).
  The strict JSON parser (`json.loads`) is not modelled: it is passed in as a
  partial function from text to a value of an arbitrary type `J`.
 */
module Extract {
  import opened Wrappers
  import opened Errors
  import opened Strings

  /** The text of the error `extract_json` raises, before the reply is appended. */
  const UnparseablePrefix: string := "Не удалось извлечь валидный JSON из ответа LLM:\n"

  /** Some `{` occurs strictly before some `}`. */
  ghost predicate BracesInOrder(text: string)
  {
    exists i, j :: 0 <= i < j < |text| && text[i] == '{' && text[j] == '}'
  }

  /** `text[i..j+1]` runs from the first `{` of `text` to its last `}`. */
  ghost predicate IsBraceSpan(text: string, i: int, j: int)
  {
    && 0 <= i < j < |text|
    && text[i] == '{' && text[j] == '}'
    && '{' !in text[..i] && '}' !in text[j+1..]
  }

  /** The guard `start != -1 and end != -1 and end > start` holds exactly when
      braces occur in order, and then `find`/`rfind` delimit the one brace span. */
  lemma BraceGuard(text: string)
    ensures var start, end := Find(text, '{'), RFind(text, '}');
      && ((start != -1 && end != -1 && end > start) <==> BracesInOrder(text))
      && (BracesInOrder(text) ==> IsBraceSpan(text, start, end))
      && (forall i, j :: IsBraceSpan(text, i, j) ==> i == start && j == end)
  {
    var start, end := Find(text, '{'), RFind(text, '}');
    if BracesInOrder(text) {
      var i, j :| 0 <= i < j < |text| && text[i] == '{' && text[j] == '}';
      assert text[i] in text && text[j] in text;
    }
    forall i, j | IsBraceSpan(text, i, j)
      ensures i == start && j == end
    {
      assert text[start] in text && text[end] in text;
    }
  }

  /** `extract_json(text)`: parse the span from the first `{` to the last `}`
      inclusive; raise with the full text appended when the braces are missing
      or out of order, or when the span does not parse. */
  function ExtractJson<J>(parse: string -> Option<J>, text: string): (r: Result<J, Error>)
    ensures r.Err? ==> r.error == Unparseable(UnparseablePrefix + text)
    ensures r.Ok? ==> exists i, j :: IsBraceSpan(text, i, j) && parse(text[i..j+1]) == Some(r.value)
    ensures r.Err? ==> forall i, j :: IsBraceSpan(text, i, j) ==> parse(text[i..j+1]).None?
  {
    BraceGuard(text);
    var start := Find(text, '{');
    var end := RFind(text, '}');
    if start != -1 && end != -1 && end > start then
      match parse(text[start..end+1])
      case Some(v) => Ok(v)
      case None => Err(Unparseable(UnparseablePrefix + text))
    else
      Err(Unparseable(UnparseablePrefix + text))
  }

  /** Without a `{` before a `}` the parser is never consulted: every parser
      gives the same error, carrying the whole text. */
  lemma ExtractWithoutBraces<J>(parse: string -> Option<J>, other: string -> Option<J>, text: string)
    requires !BracesInOrder(text)
    ensures ExtractJson(parse, text) == ExtractJson(other, text)
    ensures ExtractJson(parse, text) == Err(Unparseable(UnparseablePrefix + text))
  {
    BraceGuard(text);
  }

  /** With braces in order, the outcome is decided by parsing the brace span alone. */
  lemma ExtractParsesSpan<J>(parse: string -> Option<J>, text: string, i: int, j: int)
    requires IsBraceSpan(text, i, j)
    ensures parse(text[i..j+1]).Some? ==> ExtractJson(parse, text) == Ok(parse(text[i..j+1]).value)
    ensures parse(text[i..j+1]).None? ==> ExtractJson(parse, text) == Err(Unparseable(UnparseablePrefix + text))
  {
    assert Find(text, '{') == i && RFind(text, '}') == j by {
      BraceGuard(text);
    }
  }

  /** An object surrounded by prose: when the prose before it has no `{` and the
      prose after it has no `}`, the object's own text is what gets parsed. */
  lemma ExtractSurrounded<J>(parse: string -> Option<J>, before: string, body: string, after: string)
    requires '{' !in before && '}' !in after
    ensures var text := before + "{" + body + "}" + after;
      var obj := "{" + body + "}";
      && (parse(obj).Some? ==> ExtractJson(parse, text) == Ok(parse(obj).value))
      && (parse(obj).None? ==> ExtractJson(parse, text) == Err(Unparseable(UnparseablePrefix + text)))
  {
    var text := before + "{" + body + "}" + after;
    var i, j := |before|, |before| + |body| + 1;
    assert text[..i] == before;
    assert text[j+1..] == after;
    assert text[i..j+1] == "{" + body + "}";
    ExtractParsesSpan(parse, text, i, j);
  }

  /** A reply that is itself a brace-delimited JSON value is recovered exactly. */
  lemma ExtractWholeObject<J>(parse: string -> Option<J>, text: string)
    requires |text| >= 2 && text[0] == '{' && text[|text|-1] == '}'
    requires parse(text).Some?
    ensures ExtractJson(parse, text) == Ok(parse(text).value)
  {
    var body := text[1..|text|-1];
    assert text == "{" + body + "}";
    assert text == "" + "{" + body + "}" + "";
    ExtractSurrounded(parse, "", body, "");
  }

  /** The reply handling of `analyze_info_anchors` and `analyze_objections`:
      a strict parse of the whole reply, falling back to `ExtractJson` only
      when that parse fails. */
  function ParseReply<J>(parse: string -> Option<J>, reply: string): (r: Result<J, Error>)
    ensures parse(reply).Some? ==> r == Ok(parse(reply).value)
    ensures parse(reply).None? ==> r == ExtractJson(parse, reply)
    ensures r.Err? <==>
      && parse(reply).None?
      && forall i, j :: IsBraceSpan(reply, i, j) ==> parse(reply[i..j+1]).None?
    ensures r.Err? ==> r.error == Unparseable(UnparseablePrefix + reply)
  {
    match parse(reply)
    case Some(v) => Ok(v)
    case None => ExtractJson(parse, reply)
  }
}
