/**
 * The three input checks of the registration page. Each check is written the
 * way its regular expression reads, and a lemma proves it equal to a plain
 * description of the strings it accepts.
 *
 * Strings are sequences of Unicode scalar values. The page's patterns run on
 * UTF-16 code units; for these three patterns that gives the same answers,
 * because every character they single out (white space, `@`, `.`, ASCII
 * letters and digits) is a single code unit.
 */
module Validation {

  /** JavaScript's `\s`: the ECMAScript WhiteSpace and LineTerminator code points. */
  predicate IsWhitespace(c: char)
  {
    var n := c as int;
    n == 0x09 || n == 0x0A || n == 0x0B || n == 0x0C || n == 0x0D || n == 0x20
    || n == 0xA0 || n == 0x1680 || (0x2000 <= n <= 0x200A)
    || n == 0x2028 || n == 0x2029 || n == 0x202F || n == 0x205F
    || n == 0x3000 || n == 0xFEFF
  }

  /** The line terminators: the characters that `.` in a JavaScript pattern does not match. */
  predicate IsLineTerminator(c: char)
  {
    var n := c as int;
    n == 0x0A || n == 0x0D || n == 0x2028 || n == 0x2029
  }

  /** `[A-Za-z]` */
  predicate IsAsciiLetter(c: char)
  {
    ('A' <= c <= 'Z') || ('a' <= c <= 'z')
  }

  /** `\d`, which in JavaScript is ASCII only. */
  predicate IsDigit(c: char)
  {
    '0' <= c <= '9'
  }

  /** `[A-Za-z\d]` */
  predicate IsAlnum(c: char)
  {
    IsAsciiLetter(c) || IsDigit(c)
  }

  // ---------------------------------------------------------------------------
  // Email: ^[^\s@]+@[^\s@]+\.[^\s@]+$
  // ---------------------------------------------------------------------------

  /** `[^\s@]`: a character allowed in each of the three runs of an address. */
  predicate Plain(c: char)
  {
    !IsWhitespace(c) && c != '@'
  }

  predicate AllPlain(t: string)
  {
    forall k | 0 <= k < |t| :: Plain(t[k])
  }

  /**
   * `s` matches the email pattern with its `@` at index `at` and its literal
   * `.` at index `dot`: three non-empty runs of `[^\s@]` around them.
   */
  predicate EmailSplit(s: string, at: int, dot: int)
  {
    && 0 < at && at + 1 < dot && dot + 1 < |s|
    && s[at] == '@' && s[dot] == '.'
    && AllPlain(s[..at]) && AllPlain(s[at + 1..dot]) && AllPlain(s[dot + 1..])
  }

  /** validateEmail: the pattern matches when some placement of `@` and `.` works. */
  predicate ValidateEmail(s: string)
  {
    exists at, dot | 0 <= at < |s| && 0 <= dot < |s| :: EmailSplit(s, at, dot)
  }

  /** How many times `c` occurs in `s`. */
  function Occurrences(s: string, c: char): nat
  {
    if s == [] then 0 else (if s[0] == c then 1 else 0) + Occurrences(s[1..], c)
  }

  /** The index of the first `c` in `s`, or `|s|` when there is none. */
  function IndexOf(s: string, c: char): (i: nat)
    ensures i <= |s|
    ensures i < |s| ==> s[i] == c
    ensures forall k | 0 <= k < i :: s[k] != c
  {
    if s == [] then 0
    else if s[0] == c then 0
    else 1 + IndexOf(s[1..], c)
  }

  /** Some `.` of `d` is neither its first nor its last character. */
  predicate HasInnerDot(d: string)
  {
    exists k | 0 < k < |d| - 1 :: d[k] == '.'
  }

  /**
   * The shape of an accepted address, in words: no white space, exactly one
   * `@`, something before it, and after it a domain with an inner `.`.
   */
  predicate EmailShape(s: string)
  {
    && (forall k | 0 <= k < |s| :: !IsWhitespace(s[k]))
    && Occurrences(s, '@') == 1
    && var at := IndexOf(s, '@');
       0 < at < |s| && HasInnerDot(s[at + 1..])
  }

  lemma {:induction false} OccurrencesAppend(a: string, b: string, c: char)
    ensures Occurrences(a + b, c) == Occurrences(a, c) + Occurrences(b, c)
  {
    if a == [] {
      assert a + b == b;
    } else {
      assert (a + b)[1..] == a[1..] + b;
      OccurrencesAppend(a[1..], b, c);
    }
  }

  lemma {:induction false} OccurrencesAbsent(s: string, c: char)
    ensures Occurrences(s, c) == 0 <==> forall k | 0 <= k < |s| :: s[k] != c
  {
    if s != [] {
      OccurrencesAbsent(s[1..], c);
      assert forall k | 1 <= k < |s| :: s[k] == s[1..][k - 1];
    }
  }

  /** `s` has `c` at index `i` and nowhere else: it occurs exactly once. */
  lemma OccursOnlyAt(s: string, c: char, i: int)
    requires 0 <= i < |s| && s[i] == c
    ensures Occurrences(s, c) == 1 <==> forall k | 0 <= k < |s| && k != i :: s[k] != c
  {
    assert s == s[..i] + s[i..];
    assert s[i..] == [c] + s[i + 1..];
    OccurrencesAppend(s[..i], s[i..], c);
    OccurrencesAppend([c], s[i + 1..], c);
    OccurrencesAbsent(s[..i], c);
    OccurrencesAbsent(s[i + 1..], c);
    if Occurrences(s, c) == 1 {
      forall k | 0 <= k < |s| && k != i ensures s[k] != c {
        if k < i {
          assert s[k] == s[..i][k];
        } else {
          assert s[k] == s[i + 1..][k - i - 1];
        }
      }
    } else {
      assert Occurrences(s[..i], c) != 0 || Occurrences(s[i + 1..], c) != 0;
    }
  }

  /** A split of the pattern puts the `@` where the shape's first `@` is. */
  lemma SplitImpliesShape(s: string, at: int, dot: int)
    requires EmailSplit(s, at, dot)
    ensures EmailShape(s)
  {
    forall k | 0 <= k < |s| && k != at ensures Plain(s[k]) {
      if k < at {
        assert s[k] == s[..at][k];
      } else if k < dot {
        assert s[k] == s[at + 1..dot][k - at - 1];
      } else if k > dot {
        assert s[k] == s[dot + 1..][k - dot - 1];
      }
    }
    OccursOnlyAt(s, '@', at);
    assert IndexOf(s, '@') == at;
    assert s[at + 1..][dot - at - 1] == '.';
  }

  /** The shape gives a split of the pattern. */
  lemma ShapeImpliesSplit(s: string) returns (at: int, dot: int)
    requires EmailShape(s)
    ensures EmailSplit(s, at, dot)
  {
    at := IndexOf(s, '@');
    var k :| 0 < k < |s[at + 1..]| - 1 && s[at + 1..][k] == '.';
    dot := at + 1 + k;
    OccursOnlyAt(s, '@', at);
    assert forall j | 0 <= j < |s| && j != at :: Plain(s[j]);
    assert AllPlain(s[..at]);
    assert AllPlain(s[at + 1..dot]);
    assert AllPlain(s[dot + 1..]);
  }

  /** validateEmail accepts exactly the addresses of the described shape. */
  lemma ValidateEmailIffShape(s: string)
    ensures ValidateEmail(s) <==> EmailShape(s)
  {
    if ValidateEmail(s) {
      var at, dot :| 0 <= at < |s| && 0 <= dot < |s| && EmailSplit(s, at, dot);
      SplitImpliesShape(s, at, dot);
    }
    if EmailShape(s) {
      var at, dot := ShapeImpliesSplit(s);
    }
  }

  // ---------------------------------------------------------------------------
  // Password: ^(?=.*[A-Za-z])(?=.*\d)[A-Za-z\d]{8,}$
  // ---------------------------------------------------------------------------

  /** The two character classes the lookaheads search for. */
  datatype CharClass = Letter | Digit

  predicate InClass(c: char, cls: CharClass)
  {
    match cls
    case Letter => IsAsciiLetter(c)
    case Digit => IsDigit(c)
  }

  /**
   * `(?=.*X)` tried at the start of `p`: `.*` runs over characters other than
   * line terminators until some character of class `X` follows.
   */
  function LookaheadFinds(p: string, cls: CharClass): bool
  {
    if p == [] then false
    else InClass(p[0], cls) || (!IsLineTerminator(p[0]) && LookaheadFinds(p[1..], cls))
  }

  /** validatePassword: both lookaheads succeed and the whole string is `[A-Za-z\d]{8,}`. */
  predicate ValidatePassword(p: string)
  {
    && LookaheadFinds(p, Letter)
    && LookaheadFinds(p, Digit)
    && |p| >= 8
    && forall k | 0 <= k < |p| :: IsAlnum(p[k])
  }

  /**
   * The rule the pattern enforces: at least eight characters, every one an
   * ASCII letter or digit, at least one letter and at least one digit. A
   * symbol or a space anywhere makes the password fail.
   */
  predicate PasswordRule(p: string)
  {
    && |p| >= 8
    && (forall k | 0 <= k < |p| :: IsAlnum(p[k]))
    && (exists k | 0 <= k < |p| :: IsAsciiLetter(p[k]))
    && (exists k | 0 <= k < |p| :: IsDigit(p[k]))
  }

  /** What `(?=.*X)` means: some character of class `X` with no line terminator before it. */
  lemma {:induction false} LookaheadMeaning(p: string, cls: CharClass)
    ensures LookaheadFinds(p, cls) <==>
      exists k | 0 <= k < |p| :: InClass(p[k], cls) && forall j | 0 <= j < k :: !IsLineTerminator(p[j])
  {
    if p != [] {
      LookaheadMeaning(p[1..], cls);
      if LookaheadFinds(p, cls) && !InClass(p[0], cls) {
        var k :| 0 <= k < |p[1..]| && InClass(p[1..][k], cls)
          && forall j | 0 <= j < k :: !IsLineTerminator(p[1..][j]);
        assert InClass(p[k + 1], cls);
        assert forall j | 0 <= j < k + 1 :: !IsLineTerminator(p[j]) by {
          forall j | 0 <= j < k + 1 ensures !IsLineTerminator(p[j]) {
            if j > 0 { assert p[j] == p[1..][j - 1]; }
          }
        }
      }
      if !LookaheadFinds(p, cls) {
        forall k | 0 <= k < |p| && InClass(p[k], cls)
          ensures exists j | 0 <= j < k :: IsLineTerminator(p[j])
        {
          if k == 0 {
            assert false;
          } else if IsLineTerminator(p[0]) {
            assert IsLineTerminator(p[0]);
          } else {
            assert InClass(p[1..][k - 1], cls);
            var j :| 0 <= j < k - 1 && IsLineTerminator(p[1..][j]);
            assert IsLineTerminator(p[j + 1]);
          }
        }
      }
    }
  }

  /** On a string of letters and digits, `(?=.*X)` just asks whether some character is in `X`. */
  lemma LookaheadOnAlnum(p: string, cls: CharClass)
    requires forall k | 0 <= k < |p| :: IsAlnum(p[k])
    ensures LookaheadFinds(p, cls) <==> exists k | 0 <= k < |p| :: InClass(p[k], cls)
  {
    LookaheadMeaning(p, cls);
    if exists k | 0 <= k < |p| :: InClass(p[k], cls) {
      var k :| 0 <= k < |p| && InClass(p[k], cls);
      assert forall j | 0 <= j < k :: !IsLineTerminator(p[j]) by {
        forall j | 0 <= j < k ensures !IsLineTerminator(p[j]) {
          assert IsAlnum(p[j]);
        }
      }
    }
  }

  /** validatePassword accepts exactly the passwords that obey the rule. */
  lemma ValidatePasswordIffRule(p: string)
    ensures ValidatePassword(p) <==> PasswordRule(p)
  {
    if forall k | 0 <= k < |p| :: IsAlnum(p[k]) {
      LookaheadOnAlnum(p, Letter);
      LookaheadOnAlnum(p, Digit);
      assert (exists k | 0 <= k < |p| :: InClass(p[k], Letter)) <==> (exists k | 0 <= k < |p| :: IsAsciiLetter(p[k]));
      assert (exists k | 0 <= k < |p| :: InClass(p[k], Digit)) <==> (exists k | 0 <= k < |p| :: IsDigit(p[k]));
    }
  }

  /** A letter-and-digit password is accepted; the same with a `!` added, or one too short, is refused. */
  lemma PasswordExamples()
    ensures ValidatePassword("abc12345")
    ensures !ValidatePassword("abc12345!")
    ensures !ValidatePassword("short1")
  {
    ValidatePasswordIffRule("abc12345");
    assert IsAsciiLetter("abc12345"[0]) && IsDigit("abc12345"[3]);
    ValidatePasswordIffRule("abc12345!");
    assert !IsAlnum("abc12345!"[8]);
  }

  // ---------------------------------------------------------------------------
  // OTP: ^\d{6}$
  // ---------------------------------------------------------------------------

  const OtpLength: nat := 6

  /** `\d{n}` anchored at both ends. */
  function DigitsExactly(s: string, n: nat): bool
  {
    if n == 0 then s == []
    else s != [] && IsDigit(s[0]) && DigitsExactly(s[1..], n - 1)
  }

  /** The inline OTP check of registerUser. */
  predicate ValidateOtp(s: string)
  {
    DigitsExactly(s, OtpLength)
  }

  /** The plain reading of `^\d{n}$`: length `n`, every character a digit. */
  predicate AllDigitsOfLength(s: string, n: nat)
  {
    |s| == n && forall k | 0 <= k < |s| :: IsDigit(s[k])
  }

  lemma {:induction false} DigitsExactlyMeaning(s: string, n: nat)
    ensures DigitsExactly(s, n) <==> AllDigitsOfLength(s, n)
  {
    if n > 0 && s != [] {
      DigitsExactlyMeaning(s[1..], n - 1);
      assert forall k | 1 <= k < |s| :: s[k] == s[1..][k - 1];
    }
  }

  /** The OTP check accepts exactly six ASCII digits. */
  lemma ValidateOtpIffSixDigits(s: string)
    ensures ValidateOtp(s) <==> AllDigitsOfLength(s, 6)
  {
    DigitsExactlyMeaning(s, OtpLength);
  }

  lemma OtpExamples()
    ensures ValidateOtp("123456")
    ensures !ValidateOtp("12a456")
    ensures !ValidateOtp("12345")
  {
    ValidateOtpIffSixDigits("12a456");
    assert !IsDigit("12a456"[2]);
  }

  lemma EmailExamples()
    ensures ValidateEmail("user@example.com")
    ensures !ValidateEmail("not-an-email")
    ensures !ValidateEmail("")
  {
    assert EmailSplit("user@example.com", 4, 12);
    NoAtRefused("not-an-email");
  }

  /** A string without an `@` is refused. */
  lemma NoAtRefused(s: string)
    requires forall k | 0 <= k < |s| :: s[k] != '@'
    ensures !ValidateEmail(s)
  {
  }
}
