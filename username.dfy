/**
 * The username validator: a username must match `^[\w]+$` (Python's `re`,
 * searched without flags), with `\w` the ASCII word characters.
 */
module Username {
  /** `\w` without the Unicode flag: an ASCII letter, digit or underscore. */
  predicate IsWordChar(c: char) {
    ('a' <= c <= 'z') || ('A' <= c <= 'Z') || ('0' <= c <= '9') || c == '_'
  }

  /**
   * What the pattern accepts: one or more word characters from the start, then
   * the end of the string, where `$` also matches just before a final newline.
   */
  ghost predicate RegexMatches(s: string) {
    exists n | 1 <= n <= |s| ::
      (forall i | 0 <= i < n :: IsWordChar(s[i])) && (s[n..] == "" || s[n..] == "\n")
  }

  /** The username without the one trailing newline `$` lets through. */
  function WithoutFinalNewline(s: string): string {
    if |s| > 0 && s[|s| - 1] == '\n' then s[..|s| - 1] else s
  }

  /** The validator's verdict: the pattern matches exactly the accepted names. */
  function IsValidUsername(s: string): (ok: bool)
    ensures ok <==> RegexMatches(s)
  {
    var body := WithoutFinalNewline(s);
    var ok := |body| > 0 && forall i | 0 <= i < |body| :: IsWordChar(body[i]);
    assert ok ==> RegexMatches(s) by {
      if ok {
        assert s[|body|..] == "" || s[|body|..] == "\n";
      }
    }
    assert RegexMatches(s) ==> ok by {
      if RegexMatches(s) {
        var n :| 1 <= n <= |s| && (forall i | 0 <= i < n :: IsWordChar(s[i])) && (s[n..] == "" || s[n..] == "\n");
        if s[n..] == "" {
          assert s[n - 1] == s[|s| - 1];
          assert body == s;
        } else {
          assert s[n] == '\n' && |s| == n + 1;
          assert body == s[..n];
        }
      }
    }
    ok
  }

  lemma UsernameExamples()
    ensures IsValidUsername("jo_2")
    ensures IsValidUsername("jo\n")
    ensures !IsValidUsername("")
    ensures !IsValidUsername("\n")
    ensures !IsValidUsername("jo smith")
    ensures !IsValidUsername("jo\n\n")
  {
    assert WithoutFinalNewline("jo\n") == "jo";
    assert WithoutFinalNewline("\n") == "";
    assert !IsWordChar("jo smith"[2]);
    assert WithoutFinalNewline("jo\n\n") == "jo\n";
    assert !IsWordChar("jo\n"[2]);
  }
}
