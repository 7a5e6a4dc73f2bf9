/**
 * The parts of the HTTP layer the handlers depend on: the status codes they
 * answer with and `HeaderValue::to_str`, through which the bearer header is read.
 */
module Http {

  import opened Types

  const OK: int := 200
  const CREATED: int := 201
  const NO_CONTENT: int := 204
  const BAD_REQUEST: int := 400
  const UNAUTHORIZED: int := 401
  const NOT_FOUND: int := 404
  const INTERNAL_SERVER_ERROR: int := 500

  /** An octet of a header value. */
  newtype Byte = b: int | 0 <= b < 256

  /** A header byte `HeaderValue::to_str` accepts: visible ASCII or a tab. */
  predicate IsVisibleAscii(b: Byte) {
    (32 <= b < 127) || b == 9
  }

  predicate IsVisibleChar(c: char) {
    (32 <= c as int < 127) || c == '\t'
  }

  /** `HeaderValue::to_str`: the header as text when every byte is visible ASCII. */
  function ToStr(v: seq<Byte>): (r: Option<string>)
    ensures r.Some? <==> forall i :: 0 <= i < |v| ==> IsVisibleAscii(v[i])
    ensures r.Some? ==> |r.value| == |v| && forall i :: 0 <= i < |v| ==> r.value[i] as int == v[i] as int
  {
    if forall i :: 0 <= i < |v| ==> IsVisibleAscii(v[i])
    then Some(seq(|v|, i requires 0 <= i < |v| => (v[i] as int) as char))
    else None
  }

  /** The bytes a client sends for a header written in visible ASCII. */
  function AsciiBytes(s: string): (v: seq<Byte>)
    requires forall i :: 0 <= i < |s| ==> IsVisibleChar(s[i])
    ensures |v| == |s| && forall i :: 0 <= i < |s| ==> v[i] as int == s[i] as int
  {
    seq(|s|, i requires 0 <= i < |s| && IsVisibleChar(s[i]) => s[i] as int as Byte)
  }

  /** A header built from visible text reads back as that text. */
  lemma {:induction false} ToStrAsciiBytes(s: string)
    requires forall i :: 0 <= i < |s| ==> IsVisibleChar(s[i])
    ensures ToStr(AsciiBytes(s)) == Some(s)
  {
    var v := AsciiBytes(s);
    assert forall i :: 0 <= i < |v| ==> IsVisibleAscii(v[i]) by {
      forall i | 0 <= i < |v| ensures IsVisibleAscii(v[i]) {
        assert IsVisibleChar(s[i]);
      }
    }
    assert ToStr(v).value == s;
  }
}
