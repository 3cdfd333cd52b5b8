/**
 * The three input checks of registration: the institutional e-mail pattern
 * `^([a-z0-9_+]([a-z0-9_+.]*[a-z0-9_+])?)@aubg\.edu$`, the phone pattern
 * `^\+?[0-9]{2}[-. ]?[0-9]{4}[-. ]?[0-9]{4}$`, and the password-strength rules.
 *
 * Each pattern is written twice: as the left-to-right decision a regular
 * expression engine makes (IsAubgEmail, IsPhone), and as the set of strings
 * the pattern describes (EmailPattern, PhonePattern); lemmas prove the two agree.
 */
module Validation {
  import opened Text
  import opened Seqs

  // ---------------------------------------------------------------------------
  // E-mail
  // ---------------------------------------------------------------------------

  const Domain: string := "@aubg.edu"

  /** The class `[a-z0-9_+]`. */
  predicate LocalChar(c: char) {
    IsAsciiLower(c) || IsAsciiDigit(c) || c == '_' || c == '+'
  }

  /** `[a-z0-9_+]([a-z0-9_+.]*[a-z0-9_+])?`: no dot at either end. */
  predicate LocalPart(l: string) {
    |l| >= 1 && LocalChar(l[0]) && LocalChar(l[|l| - 1])
    && forall i :: 0 <= i < |l| ==> LocalChar(l[i]) || l[i] == '.'
  }

  /** The e-mail check: the text ends in the domain and what precedes it is a local part. */
  predicate IsAubgEmail(s: string) {
    |s| > |Domain| && s[|s| - |Domain|..] == Domain && LocalPart(s[..|s| - |Domain|])
  }

  /** The class `[a-z0-9_+.]`, repeated: the middle of a longer local part. */
  predicate MiddleChars(m: string) {
    forall i :: 0 <= i < |m| ==> LocalChar(m[i]) || m[i] == '.'
  }

  /**
   * The strings the e-mail pattern describes, read off its shape: one
   * character of `[a-z0-9_+]` before the domain, or such a character, any
   * run of `[a-z0-9_+.]`, and another such character.
   */
  ghost predicate EmailPattern(s: string) {
    (exists a :: LocalChar(a) && s == [a] + Domain)
    || (exists a, m, b :: LocalChar(a) && MiddleChars(m) && LocalChar(b) && s == [a] + m + [b] + Domain)
  }

  lemma IsAubgEmailMatchesPattern(s: string)
    ensures IsAubgEmail(s) <==> EmailPattern(s)
  {
    if IsAubgEmail(s) {
      var l := s[..|s| - |Domain|];
      assert s == l + Domain;
      if |l| == 1 {
        assert s == [l[0]] + Domain;
      } else {
        var m := l[1..|l| - 1];
        assert MiddleChars(m) by {
          forall i | 0 <= i < |m| ensures LocalChar(m[i]) || m[i] == '.' {
            assert m[i] == l[i + 1];
          }
        }
        assert l == [l[0]] + m + [l[|l| - 1]];
        assert s == [l[0]] + m + [l[|l| - 1]] + Domain;
      }
    }
    if EmailPattern(s) {
      if exists a :: LocalChar(a) && s == [a] + Domain {
        var a :| LocalChar(a) && s == [a] + Domain;
        assert s[..|s| - |Domain|] == [a];
      } else {
        var a, m, b :| LocalChar(a) && MiddleChars(m) && LocalChar(b) && s == [a] + m + [b] + Domain;
        var l := [a] + m + [b];
        assert s == l + Domain;
        assert s[..|s| - |Domain|] == l;
        forall i | 0 <= i < |l| ensures LocalChar(l[i]) || l[i] == '.' {
          if 0 < i < |l| - 1 {
            assert l[i] == m[i - 1];
          }
        }
      }
    }
  }

  /** Every address the pattern admits is already lower case, so lower-casing it changes nothing. */
  lemma AubgEmailIsLowerCase(s: string)
    requires IsAubgEmail(s)
    ensures Lower(s) == s
  {
    var n := |s| - |Domain|;
    forall i | 0 <= i < |s| ensures !IsAsciiUpper(s[i]) {
      if i >= n {
        assert s[i] == Domain[i - n];
      } else {
        assert s[i] == s[..n][i];
      }
    }
    LowerFixedPoint(s);
  }

  // ---------------------------------------------------------------------------
  // Phone
  // ---------------------------------------------------------------------------

  /** The class `[-. ]`. */
  predicate IsSep(c: char) { c == '-' || c == '.' || c == ' ' }

  /** The phone check: optional `+`, two digits, optional separator, four digits, optional separator, four digits. */
  predicate IsPhone(s: string) {
    var a := if |s| > 0 && s[0] == '+' then 1 else 0;
    |s| >= a + 2 && AllDigits(s[a..a + 2])
    && var b := if |s| > a + 2 && IsSep(s[a + 2]) then 1 else 0;
       |s| >= a + b + 6 && AllDigits(s[a + 2 + b..a + 6 + b])
       && var c := if |s| > a + b + 6 && IsSep(s[a + b + 6]) then 1 else 0;
          |s| == a + b + c + 10 && AllDigits(s[a + b + c + 6..])
  }

  /** The phone pattern with the optional `+` and separators present (1) or absent (0). */
  predicate PhoneLayout(s: string, p: int, x: int, y: int)
    requires 0 <= p <= 1 && 0 <= x <= 1 && 0 <= y <= 1
  {
    |s| == p + x + y + 10
    && (p == 1 ==> s[0] == '+')
    && AllDigits(s[p..p + 2])
    && (x == 1 ==> IsSep(s[p + 2]))
    && AllDigits(s[p + 2 + x..p + 6 + x])
    && (y == 1 ==> IsSep(s[p + x + 6]))
    && AllDigits(s[p + x + y + 6..])
  }

  /** The strings the phone pattern describes. */
  ghost predicate PhonePattern(s: string) {
    exists p, x, y :: 0 <= p <= 1 && 0 <= x <= 1 && 0 <= y <= 1 && PhoneLayout(s, p, x, y)
  }

  lemma IsPhoneMatchesPattern(s: string)
    ensures IsPhone(s) <==> PhonePattern(s)
  {
    if IsPhone(s) {
      var a := if |s| > 0 && s[0] == '+' then 1 else 0;
      var b := if |s| > a + 2 && IsSep(s[a + 2]) then 1 else 0;
      var c := if |s| > a + b + 6 && IsSep(s[a + b + 6]) then 1 else 0;
      assert PhoneLayout(s, a, b, c);
    }
    if PhonePattern(s) {
      var p, x, y :| 0 <= p <= 1 && 0 <= x <= 1 && 0 <= y <= 1 && PhoneLayout(s, p, x, y);
      // A digit is neither '+' nor a separator, so each optional part is taken exactly when present.
      if p == 0 {
        assert s[0] == s[p..p + 2][0];
      }
      if x == 0 {
        assert s[p + 2] == s[p + 2 + x..p + 6 + x][0];
      }
      if y == 0 {
        assert s[p + x + 6] == s[p + x + y + 6..][0];
      }
      var a := if |s| > 0 && s[0] == '+' then 1 else 0;
      assert a == p;
      var b := if |s| > a + 2 && IsSep(s[a + 2]) then 1 else 0;
      assert b == x;
      var c := if |s| > a + b + 6 && IsSep(s[a + b + 6]) then 1 else 0;
      assert c == y;
    }
  }

  // ---------------------------------------------------------------------------
  // Password
  // ---------------------------------------------------------------------------

  const Specials: string := "@$!%*?&"

  predicate IsSpecial(c: char) { c in Specials }

  /**
   * The password-strength rules: at least 8 bytes (`len` counts UTF-8 bytes),
   * and at least one ASCII lower-case letter, upper-case letter, digit and special character.
   */
  predicate PasswordRules(pw: string) {
    Utf8Length(pw) >= 8
    && Any(pw, IsAsciiLower)
    && Any(pw, IsAsciiUpper)
    && Any(pw, IsAsciiDigit)
    && Any(pw, IsSpecial)
  }

  /** A password passes exactly when it is long enough and has one character of each class. */
  lemma PasswordRulesIff(pw: string)
    ensures PasswordRules(pw) <==>
              Utf8Length(pw) >= 8
              && (exists i :: 0 <= i < |pw| && IsAsciiLower(pw[i]))
              && (exists i :: 0 <= i < |pw| && IsAsciiUpper(pw[i]))
              && (exists i :: 0 <= i < |pw| && IsAsciiDigit(pw[i]))
              && (exists i :: 0 <= i < |pw| && pw[i] in Specials)
  {
  }

  /** A password of ASCII characters needs at least 8 characters. */
  lemma ShortAsciiPasswordRejected(pw: string)
    requires forall i :: 0 <= i < |pw| ==> pw[i] as int < 0x80
    requires |pw| < 8
    ensures !PasswordRules(pw)
  {
  }

  /**
   * The length rule counts bytes, not characters: this password of seven
   * characters, three of them two bytes long, passes.
   */
  lemma SevenCharacterPasswordPasses()
    ensures |"Aa1!\U{e9}\U{e9}\U{e9}"| == 7
    ensures PasswordRules("Aa1!\U{e9}\U{e9}\U{e9}")
  {
    var pw := "Aa1!\U{e9}\U{e9}\U{e9}";
    assert Utf8Length(pw) == 10;
    assert IsAsciiLower(pw[1]) && IsAsciiUpper(pw[0]) && IsAsciiDigit(pw[2]) && IsSpecial(pw[3]);
  }
}
