/** Header values as the HTTP library holds them: raw bytes, readable as text when visible ASCII. */
module Http {
  import opened Wrappers

  type HeaderValue = seq<byte>

  /** A byte `HeaderValue::to_str` accepts: visible ASCII, the space, or a horizontal tab. */
  predicate IsVisible(b: byte) {
    b == 9 || 32 <= b < 127
  }

  /** `HeaderValue::to_str`: the value as text, or `None` if some byte is not visible ASCII. */
  function ToStr(v: HeaderValue): (r: Option<string>)
    ensures r.Some? <==> forall i :: 0 <= i < |v| ==> IsVisible(v[i])
    ensures r.Some? ==> |r.value| == |v| && forall i :: 0 <= i < |v| ==> r.value[i] as int == v[i]
  {
    if forall i :: 0 <= i < |v| ==> IsVisible(v[i]) then
      Some(seq(|v|, i requires 0 <= i < |v| => v[i] as char))
    else None
  }

  /** The header value whose bytes are the character codes of `s`. */
  function BytesOf(s: string): (v: HeaderValue)
    requires forall i :: 0 <= i < |s| ==> s[i] as int < 0x100
    ensures |v| == |s| && forall i :: 0 <= i < |s| ==> v[i] == s[i] as int
  {
    seq(|s|, i requires 0 <= i < |s| => s[i] as int)
  }

  /** Text read from a header value is the value, character for byte. */
  lemma ToStrBytesOf(v: HeaderValue)
    requires ToStr(v).Some?
    ensures BytesOf(ToStr(v).value) == v
  {
  }

  /** Visible text written into a header reads back unchanged. */
  lemma BytesOfToStr(s: string)
    requires forall i :: 0 <= i < |s| ==> 32 <= s[i] as int < 127
    ensures ToStr(BytesOf(s)) == Some(s)
  {
    assert ToStr(BytesOf(s)).value == s;
  }
}
