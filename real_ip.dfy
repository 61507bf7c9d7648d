/**
 * The client address a request is attributed to: the first entry of its
 * `X-Forwarded-For` header when that header is readable text, else the
 * address of the connected peer.
 */
module RealIp {
  import opened Wrappers

  type Byte = b: int | 0 <= b < 256

  /** The only way the extraction is rejected: the connection info is missing (500). */
  datatype Rejection = InternalServerError

  /** A byte that `HeaderValue::to_str` accepts: visible ASCII, or a tab. */
  predicate VisibleAscii(b: Byte) {
    (32 <= b < 127) || b == 9
  }

  /** `HeaderValue::to_str`: the header as text, when every byte is visible ASCII. */
  function HeaderText(value: seq<Byte>): (r: Option<string>)
    ensures r.Some? <==> forall k :: 0 <= k < |value| ==> VisibleAscii(value[k])
    ensures r.Some? ==> |r.value| == |value| && forall k :: 0 <= k < |value| ==> r.value[k] as int == value[k]
  {
    if forall k :: 0 <= k < |value| ==> VisibleAscii(value[k])
    then Some(seq(|value|, k requires 0 <= k < |value| => value[k] as char))
    else None
  }

  /** Unicode `White_Space`, the characters Rust's `str::trim` removes. */
  predicate IsWhitespace(c: char) {
    || '\t' <= c <= '\r' || c == ' ' || c == '\U{85}' || c == '\U{A0}' || c == '\U{1680}'
    || '\U{2000}' <= c <= '\U{200A}' || c == '\U{2028}' || c == '\U{2029}' || c == '\U{202F}'
    || c == '\U{205F}' || c == '\U{3000}'
  }

  /** `split(',').next().unwrap()`: the text before the first comma, or all of it. */
  function FirstField(s: string): (r: string)
    ensures ',' !in r
    ensures |r| <= |s| && r == s[..|r|]
    ensures |r| < |s| ==> s[|r|] == ','
    decreases |s|
  {
    if s == [] || s[0] == ',' then [] else [s[0]] + FirstField(s[1..])
  }

  /** `trim_start`: drops the leading whitespace. */
  function TrimStart(s: string): (r: string)
    ensures |r| <= |s| && r == s[|s| - |r|..]
    ensures forall k :: 0 <= k < |s| - |r| ==> IsWhitespace(s[k])
    ensures r != [] ==> !IsWhitespace(r[0])
    decreases |s|
  {
    if s != [] && IsWhitespace(s[0]) then TrimStart(s[1..]) else s
  }

  /** `trim_end`: drops the trailing whitespace. */
  function TrimEnd(s: string): (r: string)
    ensures |r| <= |s| && r == s[..|r|]
    ensures forall k :: |r| <= k < |s| ==> IsWhitespace(s[k])
    ensures r != [] ==> !IsWhitespace(r[|r| - 1])
    decreases |s|
  {
    if s != [] && IsWhitespace(s[|s| - 1]) then TrimEnd(s[..|s| - 1]) else s
  }

  /** `str::trim`: a middle stretch of `s` with neither end whitespace. */
  function Trim(s: string): (r: string)
    ensures forall c :: c in r ==> c in s
    ensures r != [] ==> !IsWhitespace(r[0]) && !IsWhitespace(r[|r| - 1])
  {
    TrimEnd(TrimStart(s))
  }

  /** Trimming takes the stretch of `s` from offset `i` and drops only whitespace around it. */
  lemma TrimShape(s: string)
    ensures var r, i := Trim(s), |s| - |TrimStart(s)|;
      && i + |r| <= |s| && r == s[i..i + |r|]
      && (forall k :: 0 <= k < i ==> IsWhitespace(s[k]))
      && (forall k :: i + |r| <= k < |s| ==> IsWhitespace(s[k]))
  {
    var t := TrimStart(s);
    var i := |s| - |t|;
    var r := TrimEnd(t);
    assert t == s[i..];
    assert r == t[..|r|];
    forall k | i + |r| <= k < |s| ensures IsWhitespace(s[k]) {
      assert s[k] == t[k - i];
    }
  }

  /**
   * `RealIp::from_request_parts`: the peer address is required first; then
   * the forwarded header, when present and readable, decides the address.
   */
  function ClientIp(forwarded: Option<seq<Byte>>, peer: Option<string>): (r: Result<string, Rejection>)
    ensures r.Failure? <==> peer.None?
    ensures peer.Some? && forwarded.None? ==> r == Success(peer.value)
    ensures peer.Some? && forwarded.Some? && HeaderText(forwarded.value).None? ==> r == Success(peer.value)
  {
    match peer
    case None => Failure(InternalServerError)
    case Some(p) =>
      match forwarded
      case None => Success(p)
      case Some(value) =>
        match HeaderText(value)
        case Some(text) => Success(Trim(FirstField(text)))
        case None => Success(p)
  }

  /**
   * An address taken from a readable header is its first comma-separated
   * entry with the surrounding whitespace removed: it holds no comma and
   * neither starts nor ends with whitespace.
   */
  lemma FromHeader(value: seq<Byte>, peer: string)
    requires HeaderText(value).Some?
    ensures var r := ClientIp(Some(value), Some(peer));
      && r == Success(Trim(FirstField(HeaderText(value).value)))
      && ',' !in r.value
      && (r.value != [] ==> !IsWhitespace(r.value[0]) && !IsWhitespace(r.value[|r.value| - 1]))
  {
  }

  /** A readable header with a single entry yields all of it, trimmed. */
  lemma {:induction false} SingleEntryHeader(value: seq<Byte>, peer: string)
    requires HeaderText(value).Some? && ',' !in HeaderText(value).value
    ensures ClientIp(Some(value), Some(peer)) == Success(Trim(HeaderText(value).value))
  {
    FirstFieldWithoutComma(HeaderText(value).value);
  }

  lemma {:induction false} FirstFieldWithoutComma(s: string)
    requires ',' !in s
    ensures FirstField(s) == s
    decreases |s|
  {
    if s != [] {
      FirstFieldWithoutComma(s[1..]);
      assert [s[0]] + s[1..] == s;
    }
  }
}
