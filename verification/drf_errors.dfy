/**
  The error-message formatter for Django REST Framework error bodies
  (`parseDrfErrorBody`), over an already-parsed JSON shape.
 */
module DrfErrors {
  import opened Basics

  /** One object of the `errors` array; `detail` may be missing. */
  datatype ErrorItem = ErrorItem(detail: Option<string>)

  /** The parsed error body: an optional `detail` and an optional `errors` array. */
  datatype ErrorBody = ErrorBody(detail: Option<string>, errors: Option<seq<ErrorItem>>)

  const BULLET: string := "\n- "

  /** `optString("detail", null.toString())`: a missing detail reads as "null". */
  function DetailText(item: ErrorItem): string
  {
    match item.detail
    case Some(d) => d
    case None => "null"
  }

  /** The detail text of every error object, in array order. */
  function Details(items: seq<ErrorItem>): (ds: seq<string>)
    ensures |ds| == |items|
    ensures forall i | 0 <= i < |items| :: ds[i] == DetailText(items[i])
  {
    if |items| == 0 then [] else [DetailText(items[0])] + Details(items[1..])
  }

  /** Kotlin's `joinToString(separator)`. */
  function JoinToString(parts: seq<string>, separator: string): string
  {
    if |parts| == 0 then ""
    else if |parts| == 1 then parts[0]
    else parts[0] + separator + JoinToString(parts[1..], separator)
  }

  /** Each part preceded by the separator, all concatenated. */
  function Prefixed(parts: seq<string>, separator: string): string
  {
    if |parts| == 0 then "" else separator + parts[0] + Prefixed(parts[1..], separator)
  }

  /** Joining a head and a tail is the head followed by each tail part with its separator. */
  lemma {:induction false} JoinIsHeadThenPrefixed(head: string, tail: seq<string>, separator: string)
    ensures JoinToString([head] + tail, separator) == head + Prefixed(tail, separator)
    decreases |tail|
  {
    if |tail| != 0 {
      assert ([head] + tail)[1..] == [tail[0]] + tail[1..];
      JoinIsHeadThenPrefixed(tail[0], tail[1..], separator);
    }
  }

  /**
    `parseDrfErrorBody`. No body gives the base message plus " No error
    body"; a top-level `detail` is returned verbatim and any `errors` array
    is then ignored; otherwise an `errors` array gives the base message
    followed by one "\n- " line per error object, in order; with neither
    key the base message plus " Unknown error". The "no details provided"
    branch of the source cannot be taken: the message list always holds the
    base message.
   */
  function ParseDrfErrorBody(base: string, body: Option<ErrorBody>): (r: string)
    ensures body.None? ==> r == base + " No error body"
    ensures body.Some? && body.value.detail.Some? ==> r == body.value.detail.value
    ensures body.Some? && body.value.detail.None? && body.value.errors.Some? ==>
              r == base + Prefixed(Details(body.value.errors.value), BULLET)
    ensures body.Some? && body.value.detail.None? && body.value.errors == Some([]) ==> r == base
    ensures body.Some? && body.value.detail.None? && body.value.errors.None? ==> r == base + " Unknown error"
  {
    match body
    case None => base + " No error body"
    case Some(json) =>
      if json.detail.Some? then json.detail.value
      else if json.errors.Some? then
        var messages := [base] + Details(json.errors.value);
        JoinIsHeadThenPrefixed(base, Details(json.errors.value), BULLET);
        if |messages| != 0 then JoinToString(messages, BULLET)
        else base + " Unknown error (no details provided)"
      else base + " Unknown error"
  }
}
