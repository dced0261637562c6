/**
 * The `user:password` string given on the command line: the format check
 * (`is_valid_auth_format`, the anchored pattern `^[^:]+:[^:]+$`) and the
 * split into the configured pair at startup.
 */
module Credentials {
  import opened Wrappers
  import opened Text

  /** States of the automaton for `^[^:]+:[^:]+$`. */
  datatype State = Start | InUser | AfterColon | InPassword | Rejected

  function Step(q: State, c: char): State {
    match q
    case Start => if c == ':' then Rejected else InUser
    case InUser => if c == ':' then AfterColon else InUser
    case AfterColon => if c == ':' then Rejected else InPassword
    case InPassword => if c == ':' then Rejected else InPassword
    case Rejected => Rejected
  }

  function Run(q: State, s: string): State
    decreases |s|
  {
    if s == [] then q else Run(Step(q, s[0]), s[1..])
  }

  /** `is_valid_auth_format(s)`: the whole of `s` matches the pattern. */
  function IsValidAuthFormat(s: string): bool {
    Run(Start, s) == InPassword
  }

  /** The language of the pattern: one ':' with a non-empty, colon-free part on each side. */
  ghost predicate IsUserColonPassword(s: string) {
    exists i :: 0 < i < |s| - 1 && s[i] == ':' && ':' !in s[..i] && ':' !in s[i + 1..]
  }

  lemma {:induction false} RunRejected(s: string)
    ensures Run(Rejected, s) == Rejected
    decreases |s|
  {
    if s != [] {
      RunRejected(s[1..]);
    }
  }

  lemma {:induction false} RunInPassword(s: string)
    ensures Run(InPassword, s) == InPassword <==> ':' !in s
    decreases |s|
  {
    if s != [] {
      if s[0] == ':' {
        RunRejected(s[1..]);
      } else {
        RunInPassword(s[1..]);
        assert s == [s[0]] + s[1..];
      }
    }
  }

  lemma RunAfterColon(s: string)
    ensures Run(AfterColon, s) == InPassword <==> s != [] && ':' !in s
  {
    if s != [] {
      if s[0] == ':' {
        RunRejected(s[1..]);
      } else {
        RunInPassword(s[1..]);
        assert s == [s[0]] + s[1..];
      }
    }
  }

  /** After the first character of the user name, the automaton accepts exactly a colon-free rest of the name, ':', and a password. */
  lemma {:induction false} RunInUser(s: string)
    ensures Run(InUser, s) == InPassword <==>
      exists i :: 0 <= i < |s| - 1 && s[i] == ':' && ':' !in s[..i] && ':' !in s[i + 1..]
    decreases |s|
  {
    if s != [] {
      if s[0] == ':' {
        RunAfterColon(s[1..]);
        if Run(InUser, s) == InPassword {
          assert s[..0] == [];
        }
      } else {
        var t := s[1..];
        RunInUser(t);
        if Run(InUser, s) == InPassword {
          var j :| 0 <= j < |t| - 1 && t[j] == ':' && ':' !in t[..j] && ':' !in t[j + 1..];
          assert s[..j + 1] == [s[0]] + t[..j];
          assert s[j + 2..] == t[j + 1..];
        }
        if i :| 0 <= i < |s| - 1 && s[i] == ':' && ':' !in s[..i] && ':' !in s[i + 1..] {
          assert t[..i - 1] == s[1..i];
          assert t[i..] == s[i + 1..];
          assert 0 <= i - 1 < |t| - 1 && t[i - 1] == ':' && ':' !in t[..i - 1] && ':' !in t[i..];
        }
      }
    }
  }

  /** The check accepts exactly the strings of the pattern's language. */
  lemma ValidAuthFormatIffLanguage(s: string)
    ensures IsValidAuthFormat(s) <==> IsUserColonPassword(s)
  {
    if s != [] {
      var t := s[1..];
      if s[0] == ':' {
        RunRejected(t);
      } else {
        RunInUser(t);
        if IsValidAuthFormat(s) {
          var j :| 0 <= j < |t| - 1 && t[j] == ':' && ':' !in t[..j] && ':' !in t[j + 1..];
          assert s[..j + 1] == [s[0]] + t[..j];
          assert s[j + 2..] == t[j + 1..];
          assert s[j + 1] == ':';
        }
        if IsUserColonPassword(s) {
          var i :| 0 < i < |s| - 1 && s[i] == ':' && ':' !in s[..i] && ':' !in s[i + 1..];
          assert t[..i - 1] == s[1..i];
          assert t[i..] == s[i + 1..];
          assert 0 <= i - 1 < |t| - 1 && t[i - 1] == ':' && ':' !in t[..i - 1] && ':' !in t[i..];
        }
      }
    }
  }

  /** Examples: "alice:secret" passes; "", "alice", ":x" and "alice:se:cret" do not. */
  lemma AcceptedExample()
    ensures IsValidAuthFormat("alice:secret")
  {
    var good := "alice:secret";
    assert good[5] == ':' && good[..5] == "alice" && good[6..] == "secret";
    assert ':' !in "alice" && ':' !in "secret";
    assert IsUserColonPassword(good);
    ValidAuthFormatIffLanguage(good);
  }

  lemma RejectedExamples()
    ensures !IsValidAuthFormat("") && !IsValidAuthFormat("alice") && !IsValidAuthFormat(":x")
  {
    ValidAuthFormatIffLanguage("alice");
    ValidAuthFormatIffLanguage(":x");
  }

  lemma RejectedSecondColon()
    ensures !IsValidAuthFormat("alice:se:cret")
  {
    var bad := "alice:se:cret";
    ValidAuthFormatIffLanguage(bad);
  }

  /** On a string of the valid format, `split_once(':')` finds the pair: the `unwrap` at startup cannot fail. */
  lemma ValidFormatSplits(auth: string)
    requires IsValidAuthFormat(auth)
    ensures SplitOnce(auth, ':').Some?
    ensures var (user, password) := SplitOnce(auth, ':').value;
      auth == user + ":" + password && user != "" && password != "" && ':' !in user && ':' !in password
  {
    ValidAuthFormatIffLanguage(auth);
    var i :| 0 < i < |auth| - 1 && auth[i] == ':' && ':' !in auth[..i] && ':' !in auth[i + 1..];
    assert auth == auth[..i] + [':'] + auth[i + 1..];
    SplitOnceJoin(auth[..i], auth[i + 1..], ':');
  }

  /**
   * The credential pair the server is started with: a non-empty string of
   * the valid format, split at its first ':'. `None` means the server runs
   * without authentication.
   */
  function ConfiguredCredential(auth: string): (r: Option<(string, string)>)
    ensures r.Some? <==> IsUserColonPassword(auth)
    ensures r.Some? ==> var (user, password) := r.value;
      auth == user + ":" + password && user != "" && password != "" && ':' !in user && ':' !in password
  {
    ValidAuthFormatIffLanguage(auth);
    if auth != "" && IsValidAuthFormat(auth) then
      ValidFormatSplits(auth);
      Some(SplitOnce(auth, ':').value)
    else None
  }
}
