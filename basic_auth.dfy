/**
 * The Basic-Auth gate placed in front of every route when a credential
 * pair is configured (the HTTP "Basic" scheme of section 2 of RFC 7617).
 */
module BasicAuth {
  import opened Wrappers
  import opened Text
  import opened Http
  import Base64
  import Utf8
  import Credentials

  /** What the gate does with a request: hand it on, or answer it itself. */
  datatype Verdict = Forward | Respond(status: int, wwwAuthenticate: string, body: string)

  /** The single answer to every request the gate refuses. */
  const Unauthorized: Verdict :=
    Respond(401, "Basic realm=\"MacOCR Server\"", "Authentication failed: A valid username and password are required.")

  /** The decision of `basic_auth_middleware_with_params` on the request's `Authorization` header. */
  function Decide(authorization: Option<HeaderValue>, username: string, password: string): (v: Verdict)
    ensures v == Forward || v == Unauthorized
  {
    match authorization
    case None => Unauthorized
    case Some(header) =>
      match ToStr(header)
      case None => Unauthorized
      case Some(text) =>
        if !StartsWith(text, "Basic ") then Unauthorized
        else match Base64.Decode(text[6..])
          case None => Unauthorized
          case Some(bytes) =>
            match Utf8.Decode(bytes)
            case None => Unauthorized
            case Some(decoded) =>
              match SplitOnce(decoded, ':')
              case None => Unauthorized
              case Some((user, pass)) =>
                if user == username && pass == password then Forward else Unauthorized
  }

  lemma EncodingIsVisible(b: seq<byte>)
    ensures forall i :: 0 <= i < |"Basic " + Base64.Encode(b)| ==> 32 <= ("Basic " + Base64.Encode(b))[i] as int < 127
  {
    var s := Base64.Encode(b);
    Base64.EncodingAlphabet(b);
    var t := "Basic " + s;
    forall i | 0 <= i < |t|
      ensures 32 <= t[i] as int < 127
    {
      if i >= 6 {
        assert t[i] == s[i - 6];
      }
    }
  }

  /** The header a client sends for `username` and `password`: "Basic " and the base64 of the UTF-8 of user-id ":" password. */
  function BasicCredentials(username: string, password: string): HeaderValue
  {
    var encoded := Base64.Encode(Utf8.Encode(username + ":" + password));
    EncodingIsVisible(Utf8.Encode(username + ":" + password));
    BytesOf("Basic " + encoded)
  }

  /**
   * For a user name without ':' (which the startup check guarantees), the
   * gate forwards exactly the requests whose header is the credential
   * header for the configured pair, byte for byte; it answers every other
   * request, with or without a header, with the same 401 challenge.
   */
  lemma {:induction false} ForwardsExactlyTheCredentials(authorization: Option<HeaderValue>, username: string, password: string)
    requires ':' !in username
    ensures Decide(authorization, username, password) == Forward <==>
      authorization == Some(BasicCredentials(username, password))
  {
    var plain := username + ":" + password;
    var encoded := Base64.Encode(Utf8.Encode(plain));
    var text := "Basic " + encoded;
    EncodingIsVisible(Utf8.Encode(plain));
    if authorization == Some(BasicCredentials(username, password)) {
      BytesOfToStr(text);
      assert text[..6] == "Basic " && text[6..] == encoded;
      Base64.DecodeEncode(Utf8.Encode(plain));
      Utf8.DecodeEncode(plain);
      SplitOnceJoin(username, password, ':');
    }
    if Decide(authorization, username, password) == Forward {
      var header := authorization.value;
      var got := ToStr(header).value;
      ToStrBytesOf(header);
      var bytes := Base64.Decode(got[6..]).value;
      Base64.EncodeDecode(got[6..]);
      var decoded := Utf8.Decode(bytes).value;
      Utf8.EncodeDecode(bytes);
      assert decoded == plain;
      assert got == "Basic " + got[6..];
    }
  }

  /** A user name containing ':' can never be presented: the split stops at its first ':'. */
  lemma ColonInUserNeverForwards(authorization: Option<HeaderValue>, username: string, password: string)
    requires ':' in username
    ensures Decide(authorization, username, password) == Unauthorized
  {
  }

  /**
   * With the gate configured from the command-line string `auth`, a request
   * gets through exactly when its header is the credential header of the
   * configured pair, which is "Basic " and the base64 of the UTF-8 of `auth`.
   */
  lemma ConfiguredGate(auth: string, authorization: Option<HeaderValue>)
    requires Credentials.ConfiguredCredential(auth).Some?
    ensures var (user, password) := Credentials.ConfiguredCredential(auth).value;
      user + ":" + password == auth &&
      (Decide(authorization, user, password) == Forward <==> authorization == Some(BasicCredentials(user, password)))
  {
    var (user, password) := Credentials.ConfiguredCredential(auth).value;
    ForwardsExactlyTheCredentials(authorization, user, password);
  }
}
