/**
  The syntax check `validate_syntax`: `re.match` of the pattern
  `^[a-zA-Z0-9._%+-]+@[a-zA-Z0-9.-]+\.[a-zA-Z]{2,}$` against the address.

  The pattern is a concatenation of character-class repetitions, so a string
  matches it exactly when it can be cut into a local part, `@`, a domain part,
  `.` and a top-level label, each over its own class (`SplitsAt`). Python's
  `$` (without MULTILINE) matches at the very end and also just before one
  trailing newline, so `PatternMatch` admits that case too.
 */
module Syntax {
  import opened Optional
  import opened Text

  predicate IsAsciiLetter(c: char)
  {
    'a' <= c <= 'z' || 'A' <= c <= 'Z'
  }

  predicate IsDigit(c: char)
  {
    '0' <= c <= '9'
  }

  /** The class `[a-zA-Z0-9._%+-]`. */
  predicate IsLocalChar(c: char)
  {
    IsAsciiLetter(c) || IsDigit(c) || c == '.' || c == '_' || c == '%' || c == '+' || c == '-'
  }

  /** The class `[a-zA-Z0-9.-]`. */
  predicate IsDomainChar(c: char)
  {
    IsAsciiLetter(c) || IsDigit(c) || c == '.' || c == '-'
  }

  /** `[a-zA-Z0-9._%+-]+` */
  predicate IsLocalPart(s: string)
  {
    |s| >= 1 && forall k :: 0 <= k < |s| ==> IsLocalChar(s[k])
  }

  /** `[a-zA-Z0-9.-]+` */
  predicate IsDomainPart(s: string)
  {
    |s| >= 1 && forall k :: 0 <= k < |s| ==> IsDomainChar(s[k])
  }

  /** `[a-zA-Z]{2,}` */
  predicate IsTopLevel(s: string)
  {
    |s| >= 2 && forall k :: 0 <= k < |s| ==> IsAsciiLetter(s[k])
  }

  /** `s` is local part `s[..at]`, `@`, domain `s[at+1..dot]`, `.`, label `s[dot+1..]`. */
  predicate SplitsAt(s: string, at: nat, dot: nat)
  {
    at < dot < |s| &&
    IsLocalPart(s[..at]) && s[at] == '@' &&
    IsDomainPart(s[at + 1..dot]) && s[dot] == '.' &&
    IsTopLevel(s[dot + 1..])
  }

  /** The whole of `s` matches the pattern between `^` and the end. */
  ghost predicate MatchesWhole(s: string)
  {
    exists at: nat, dot: nat :: SplitsAt(s, at, dot)
  }

  /** What `re.match(pattern, email)` accepts, `$` included. */
  ghost predicate PatternMatch(email: string)
  {
    MatchesWhole(email) ||
    (|email| >= 1 && email[|email| - 1] == '\n' && MatchesWhole(email[..|email| - 1]))
  }

  /** A domain followed by a dotted top-level label: the text after the `@`. */
  ghost predicate IsDottedDomain(d: string)
  {
    exists dot: nat :: dot < |d| && IsDomainPart(d[..dot]) && d[dot] == '.' && IsTopLevel(d[dot + 1..])
  }

  /** The text after the `@` of a matching address: a dotted domain, or one followed by the newline `$` lets through. */
  ghost predicate IsDomainText(d: string)
  {
    IsDottedDomain(d) || (|d| >= 1 && d[|d| - 1] == '\n' && IsDottedDomain(d[..|d| - 1]))
  }

  /**
    The decision procedure for `MatchesWhole`. No class admits `@`, so the
    `@` must be the first one; the top-level label admits no `.`, so the dot
    before it must be the last one after the `@`.
   */
  function MatchesWholeDecide(s: string): (ok: bool)
    ensures ok <==> MatchesWhole(s)
  {
    match IndexOf(s, '@')
    case None =>
      NoAtNoMatch(s);
      false
    case Some(at) =>
      var rest := s[at + 1..];
      match LastIndexOf(rest, '.')
      case None =>
        NoDotNoMatch(s, at);
        false
      case Some(d) =>
        var ok := IsLocalPart(s[..at]) && IsDomainPart(rest[..d]) && IsTopLevel(rest[d + 1..]);
        CutIsForced(s, at, d);
        ok
  }

  lemma NoAtNoMatch(s: string)
    requires '@' !in s
    ensures !MatchesWhole(s)
  {
    forall at: nat, dot: nat ensures !SplitsAt(s, at, dot) {
      if at < |s| {
        assert s[at] in s;
      }
    }
  }

  /** What a match says about where `@` and `.` can stand. */
  lemma MatchShape(s: string, at: nat, dot: nat)
    requires SplitsAt(s, at, dot)
    ensures forall k :: 0 <= k < at ==> s[k] != '@'
    ensures forall k :: at < k < |s| ==> s[k] != '@'
    ensures forall k :: dot < k < |s| ==> IsAsciiLetter(s[k])
  {
    forall k | 0 <= k < at ensures s[k] != '@' {
      assert s[k] == s[..at][k];
    }
    forall k | at < k < |s| ensures s[k] != '@' && (k > dot ==> IsAsciiLetter(s[k])) {
      if k < dot {
        assert s[k] == s[at + 1..dot][k - at - 1];
      } else if k > dot {
        assert s[k] == s[dot + 1..][k - dot - 1];
      }
    }
  }

  /** In a match the `@` is the first `@` of the string. */
  lemma AtIsFirst(s: string, a: nat, d: nat, at: nat)
    requires SplitsAt(s, a, d)
    requires at < |s| && s[at] == '@' && '@' !in s[..at]
    ensures a == at
  {
    MatchShape(s, a, d);
    forall k | 0 <= k < at ensures s[k] != '@' {
      assert s[k] == s[..at][k];
    }
  }

  lemma NoDotNoMatch(s: string, at: nat)
    requires at < |s| && s[at] == '@' && '@' !in s[..at]
    requires '.' !in s[at + 1..]
    ensures !MatchesWhole(s)
  {
    forall a: nat, d: nat ensures !SplitsAt(s, a, d) {
      if a < at {
        assert s[a] == s[..at][a];
      } else if at < a < |s| {
        assert s[..a][at] == '@';
      } else if a == at && at < d < |s| {
        assert s[d] == s[at + 1..][d - at - 1];
      }
    }
  }

  /** The cut that `MatchesWholeDecide` tries is the only one that can work. */
  lemma CutIsForced(s: string, at: nat, d: nat)
    requires at < |s| && s[at] == '@' && '@' !in s[..at]
    requires d < |s[at + 1..]| && s[at + 1..][d] == '.' && '.' !in s[at + 1..][d + 1..]
    ensures MatchesWhole(s) <==>
      IsLocalPart(s[..at]) && IsDomainPart(s[at + 1..][..d]) && IsTopLevel(s[at + 1..][d + 1..])
  {
    var rest := s[at + 1..];
    assert rest[..d] == s[at + 1..at + 1 + d];
    assert rest[d + 1..] == s[at + 1 + d + 1..];
    if IsLocalPart(s[..at]) && IsDomainPart(rest[..d]) && IsTopLevel(rest[d + 1..]) {
      assert SplitsAt(s, at, at + 1 + d);
    }
    if MatchesWhole(s) {
      var a: nat, dot: nat :| SplitsAt(s, a, dot);
      AtIsFirst(s, a, dot, at);
      MatchShape(s, a, dot);
      forall k | at + 1 + d < k < |s| ensures s[k] != '.' {
        assert s[k] == rest[d + 1..][k - at - 1 - d - 1];
      }
      assert dot == at + 1 + d;
    }
  }

  /**
    `validate_syntax(email)`: the pattern matched with Python's `$`, which
    also lets one trailing newline through.
   */
  function ValidateSyntax(email: string): (ok: bool)
    ensures ok <==> PatternMatch(email)
  {
    MatchesWholeDecide(email) ||
    (|email| >= 1 && email[|email| - 1] == '\n' && MatchesWholeDecide(email[..|email| - 1]))
  }

  /**
    `email.split('@')[1]`, the domain the orchestrator resolves: the text after
    the only `@`, ending in a dot and a top-level label (maybe with the newline).
   */
  function Domain(email: string): (d: string)
    requires ValidateSyntax(email)
    ensures '@' !in d
    ensures |d| < |email| && email[|email| - |d| - 1] == '@' && d == email[|email| - |d|..]
    ensures IsDomainText(d)
  {
    ValidHasOneAt(email);
    var parts := Split(email, '@');
    assert email[|email| - |parts[1]|..] == parts[1];
    parts[1]
  }

  /** Splitting a matching address (maybe with its trailing newline) at `@`. */
  lemma SplitOfMatch(email: string, s: string, at: nat, dot: nat)
    requires SplitsAt(s, at, dot)
    requires email == s || email == s + "\n"
    ensures Split(email, '@') == [s[..at], email[at + 1..]]
  {
    MatchShape(s, at, dot);
    assert email[..at] == s[..at];
    assert '@' !in email[..at] by {
      forall k | 0 <= k < at ensures email[..at][k] != '@' {
        assert email[..at][k] == s[k];
      }
    }
    var rest := email[at + 1..];
    assert '@' !in rest by {
      forall k | 0 <= k < |rest| ensures rest[k] != '@' {
        assert rest[k] == email[at + 1 + k];
        if at + 1 + k < |s| {
          assert email[at + 1 + k] == s[at + 1 + k];
        }
      }
    }
    SplitSingle(email, '@', at);
  }

  /** The text after the `@` of a match is a dotted domain (plus the trailing newline, if any). */
  lemma DomainOfMatch(email: string, s: string, at: nat, dot: nat)
    requires SplitsAt(s, at, dot)
    requires email == s || email == s + "\n"
    ensures var d := email[at + 1..];
      IsDomainText(d)
  {
    var d := email[at + 1..];
    var t := s[at + 1..];
    var j := dot - at - 1;
    assert t[..j] == s[at + 1..dot] && t[j] == '.' && t[j + 1..] == s[dot + 1..];
    if email == s {
      assert d == t;
    } else {
      assert d[..|d| - 1] == t;
    }
  }

  /** A matching address has exactly one `@`; splitting there gives the local part and the rest. */
  lemma MatchHasOneAt(email: string)
    requires PatternMatch(email)
    ensures multiset(email)['@'] == 1
    ensures |Split(email, '@')| == 2
    ensures var parts := Split(email, '@');
      email == parts[0] + "@" + parts[1] && IsLocalPart(parts[0])
  {
    var s := if MatchesWhole(email) then email else email[..|email| - 1];
    assert email == s || email == s + "\n";
    var at: nat, dot: nat :| SplitsAt(s, at, dot);
    SplitOfMatch(email, s, at, dot);
    var parts := Split(email, '@');
    assert parts[0] == s[..at] && parts[1] == email[at + 1..];
    assert email[..at] == s[..at] && email[at] == '@';
    assert email == parts[0] + "@" + parts[1];
  }

  /** The text after the `@` of a matching address is a dotted domain, maybe with the trailing newline. */
  lemma MatchDomainIsDotted(email: string)
    requires PatternMatch(email)
    ensures |Split(email, '@')| == 2
    ensures var d := Split(email, '@')[1];
      IsDomainText(d)
  {
    var s := if MatchesWhole(email) then email else email[..|email| - 1];
    assert email == s || email == s + "\n";
    var at: nat, dot: nat :| SplitsAt(s, at, dot);
    SplitOfMatch(email, s, at, dot);
    DomainOfMatch(email, s, at, dot);
    assert Split(email, '@')[1] == email[at + 1..];
  }

  /** A valid address has exactly one `@`; splitting there gives the local part and a dotted domain. */
  lemma ValidHasOneAt(email: string)
    requires ValidateSyntax(email)
    ensures multiset(email)['@'] == 1
    ensures |Split(email, '@')| == 2
    ensures var parts := Split(email, '@');
      email == parts[0] + "@" + parts[1] && IsLocalPart(parts[0]) &&
      IsDomainText(parts[1])
  {
    MatchHasOneAt(email);
    MatchDomainIsDotted(email);
  }

  /** An address without `@` never passes. */
  lemma NoAtIsInvalid(email: string)
    requires '@' !in email
    ensures !ValidateSyntax(email)
  {
    NoAtNoMatch(email);
    if |email| >= 1 {
      var t := email[..|email| - 1];
      assert '@' !in t by {
        forall k | 0 <= k < |t| ensures t[k] != '@' {
          assert t[k] == email[k];
        }
      }
      NoAtNoMatch(t);
    }
  }

  /** Every address built as local `@` domain `.` label passes, with or without one trailing newline. */
  lemma WellFormedIsValid(local: string, domain: string, tld: string, newline: bool)
    requires IsLocalPart(local) && IsDomainPart(domain) && IsTopLevel(tld)
    ensures ValidateSyntax(local + "@" + domain + "." + tld + (if newline then "\n" else ""))
  {
    var s := local + "@" + domain + "." + tld;
    var at, dot := |local|, |local| + 1 + |domain|;
    assert s[..at] == local && s[at + 1..dot] == domain && s[dot + 1..] == tld;
    assert SplitsAt(s, at, dot);
    if newline {
      var e := s + "\n";
      assert e[..|e| - 1] == s;
    } else {
      assert s + "" == s;
    }
  }
}
