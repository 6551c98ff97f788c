/** The two-tier normalisation of the model's reply: field-by-field defaults
    when the cleaned reply parses, the first 120 characters of the raw reply as
    the summary when it does not. */
module Response {
  import opened Wrappers
  import opened Fence

  /** A property of the parsed object as the `??` operator sees it: JSON null
      or a string. A key missing from the map reads as `undefined`. */
  datatype Value = Null | Str(text: string)

  /** The properties of whatever `JSON.parse` returned. A parse to a string,
      a number or an array has none of the three keys: an empty map. */
  type FieldMap = map<string, Value>

  /** The three fields of the result that come from the model. */
  datatype Fields = Fields(sentiment: string, topics: string, summary: string)

  const UnknownSentiment: string := "Unknown"

  /** Length of the raw-reply prefix used as the summary when parsing fails. */
  const FallbackSummaryLength: nat := 120

  /** `parsed[key]` is neither undefined nor null. */
  predicate Present(m: FieldMap, key: string)
  {
    key in m && m[key].Str?
  }

  /** `parsed[key] ?? fallback` */
  function Coalesce(m: FieldMap, key: string, fallback: string): string
  {
    if Present(m, key) then m[key].text else fallback
  }

  /** `s.slice(0, n)`: the longest prefix of `s` of length at most `n`. */
  function Slice(s: string, n: nat): (r: string)
    ensures |r| == if |s| <= n then |s| else n
    ensures r <= s
  {
    if |s| <= n then s else s[..n]
  }

  /** The fields the action assigns from a reply `raw`; `parse` stands for
      `JSON.parse` followed by reading the properties, with `None` for a parse
      that throws or yields null (reading a property of null throws inside the
      same try). On success each field is the parsed string when present and
      not null (an empty string included, and never truncated) and its default
      otherwise; on failure the sentiment and topics keep their defaults and
      the summary is the first 120 characters of the uncleaned reply. */
  function Normalize(raw: string, parse: string -> Option<FieldMap>): (f: Fields)
    ensures parse(CleanReply(raw)).None? ==>
      && f.sentiment == UnknownSentiment
      && f.topics == ""
      && |f.summary| == (if |raw| <= FallbackSummaryLength then |raw| else FallbackSummaryLength)
      && f.summary <= raw
    ensures parse(CleanReply(raw)).Some? ==>
      var m := parse(CleanReply(raw)).value;
      && (if Present(m, "sentiment") then f.sentiment == m["sentiment"].text else f.sentiment == UnknownSentiment)
      && (if Present(m, "topics") then f.topics == m["topics"].text else f.topics == "")
      && (if Present(m, "summary") then f.summary == m["summary"].text else f.summary == "")
  {
    match parse(CleanReply(raw))
    case Some(m) =>
      Fields(Coalesce(m, "sentiment", UnknownSentiment), Coalesce(m, "topics", ""), Coalesce(m, "summary", ""))
    case None =>
      Fields(UnknownSentiment, "", Slice(raw, FallbackSummaryLength))
  }

  /** A reply fenced in a ```json block normalises exactly as the bare payload
      does, whenever the payload parses. */
  lemma WrappedReplyParsesAsPayload(p: string, parse: string -> Option<FieldMap>)
    requires !Contains(p, Backticks)
    requires parse(CleanReply(p)).Some?
    ensures Normalize(Wrap(p), parse) == Normalize(p, parse)
  {
    CleanWrapped(p);
  }

  /** When the payload does not parse, the fence shows in the fallback summary,
      because the fallback is cut from the raw reply and not the cleaned one:
      the fenced and the bare reply then normalise differently. */
  lemma WrappedFallbackKeepsFence(p: string, parse: string -> Option<FieldMap>)
    requires !Contains(p, Backticks)
    requires parse(CleanReply(p)).None?
    ensures StartsWith(Normalize(Wrap(p), parse).summary, Backticks)
    ensures Normalize(Wrap(p), parse) != Normalize(p, parse)
  {
    CleanWrapped(p);
    WrapStartsWithBackticks(p);
    FallbackShowsFence(Wrap(p), p, parse);
  }

  lemma WrapStartsWithBackticks(p: string)
    ensures StartsWith(Wrap(p), Backticks)
  {
    var w := Wrap(p);
    assert w == JsonFence + ("\n" + p + "\n" + Backticks);
    assert w[..3] == JsonFence[..3];
  }

  /** The fallback summaries of a reply that starts with "```" and of a
      backtick-free one differ. */
  lemma FallbackShowsFence(w: string, p: string, parse: string -> Option<FieldMap>)
    requires StartsWith(w, Backticks)
    requires !Contains(p, Backticks)
    requires parse(CleanReply(w)).None? && parse(CleanReply(p)).None?
    ensures StartsWith(Normalize(w, parse).summary, Backticks)
    ensures Normalize(w, parse) != Normalize(p, parse)
  {
    var fenced := Normalize(w, parse).summary;
    var bare := Normalize(p, parse).summary;
    BackticksAt(w);
    BackticksAt(fenced);
    BackticksAt(p);
    BackticksAt(bare);
  }
}
