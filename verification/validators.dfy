/** The two input validators of src/cazary.js: `checkEmail` (length limits from
    RFC 5321, sections 4.5.3.1.1 and 4.5.3.1.3, then a fixed pattern) and
    `checkURL` (an `http://` or `https://` prefix). */
module Validators {
  import opened Text

  /** Longest accepted address, in characters. */
  const MaxAddressLength := 256
  /** Largest accepted position of the first `@`, i.e. longest local part. */
  const MaxLocalPartLength := 64

  /** The atom class of the pattern: `\w` and ``!#$%&'*+-/=?^`{|}~``. */
  predicate IsAtomChar(c: char) {
    || IsWordChar(c)
    || c == '!' || c == '#' || c == '$' || c == '%' || c == '&' || c == '\''
    || c == '*' || c == '+' || c == '-' || c == '/' || c == '=' || c == '?'
    || c == '^' || c == '`' || c == '{' || c == '|' || c == '}' || c == '~'
  }

  /** The label class of the pattern: `[\w\-]`. */
  predicate IsLabelChar(c: char) {
    IsWordChar(c) || c == '-'
  }

  predicate AllLabelChars(s: string) {
    forall k | 0 <= k < |s| :: IsLabelChar(s[k])
  }

  // ---------------------------------------------------------------------------
  // A recogniser for the pattern
  //   ^ ATOM (\.? ATOM)* @ ([\w-]+\.)+ (\w+) $
  // ---------------------------------------------------------------------------

  /** `(\.?ATOM)*`: atoms, each optionally preceded by one dot. */
  predicate AtomTail(t: string)
    decreases |t|
  {
    || t == []
    || (IsAtomChar(t[0]) && AtomTail(t[1..]))
    || (|t| >= 2 && t[0] == '.' && IsAtomChar(t[1]) && AtomTail(t[2..]))
  }

  /** `ATOM(\.?ATOM)*` */
  predicate LocalPart(l: string) {
    |l| >= 1 && IsAtomChar(l[0]) && AtomTail(l[1..])
  }

  /** `([\w-]+\.)+(\w+)`: since `.` is in neither class, the first label runs
      exactly up to the first dot. */
  predicate DomainPart(d: string)
    decreases |d|
  {
    var j := IndexOf(d, '.');
    && 0 < j
    && AllLabelChars(d[..j])
    && var rest := d[j + 1..];
       || (|rest| > 0 && AllWordChars(rest))
       || DomainPart(rest)
  }

  /** The whole pattern. Neither part admits `@`, so the separating `@` is the
      first one. */
  predicate MatchesEmailPattern(s: string) {
    var at := IndexOf(s, '@');
    at >= 0 && LocalPart(s[..at]) && DomainPart(s[at + 1..])
  }

  /** `checkEmail` */
  predicate CheckEmail(s: string) {
    if |s| > MaxAddressLength then false
    else if IndexOf(s, '@') > MaxLocalPartLength then false
    else MatchesEmailPattern(s)
  }

  /** `checkURL`: the pattern `^https?:\/\/`. */
  predicate CheckURL(s: string) {
    StartsWith(s, "http://") || StartsWith(s, "https://")
  }

  // ---------------------------------------------------------------------------
  // Reference descriptions of the two halves of an address
  // ---------------------------------------------------------------------------

  /** Atoms and dots, with no dot at the end and no two dots in a row. */
  predicate DottedAtoms(t: string) {
    && (forall k | 0 <= k < |t| :: IsAtomChar(t[k]) || t[k] == '.')
    && (|t| > 0 ==> t[|t| - 1] != '.')
    && (forall k | 0 <= k < |t| - 1 :: !(t[k] == '.' && t[k + 1] == '.'))
  }

  /** A local part as a reader of the pattern describes it: non-empty, atoms and
      dots only, not starting or ending with a dot, no `..`. */
  predicate WellFormedLocalPart(l: string) {
    |l| > 0 && l[0] != '.' && DottedAtoms(l)
  }

  /** Dot-separated pieces of a domain: at least two, all non-empty, the last
      one word characters only and the others label characters only. */
  predicate WellFormedLabels(parts: seq<string>) {
    && |parts| >= 2
    && (forall i | 0 <= i < |parts| - 1 :: parts[i] != [] && AllLabelChars(parts[i]))
    && parts[|parts| - 1] != []
    && AllWordChars(parts[|parts| - 1])
  }

  /** A domain as a reader of the pattern describes it. */
  predicate WellFormedDomain(d: string) {
    WellFormedLabels(Split(d, '.'))
  }

  lemma {:induction false} AtomTailIsDottedAtoms(t: string)
    ensures AtomTail(t) <==> DottedAtoms(t)
    decreases |t|
  {
    if t == [] {
    } else if t[0] == '.' {
      if |t| >= 2 {
        AtomTailIsDottedAtoms(t[2..]);
        if DottedAtoms(t) {
          assert t[1] != '.' by { assert !(t[0] == '.' && t[1] == '.'); }
          assert IsAtomChar(t[1]);
          assert DottedAtoms(t[2..]) by {
            forall k | 0 <= k < |t[2..]| - 1
              ensures !(t[2..][k] == '.' && t[2..][k + 1] == '.')
            {
              assert t[2..][k] == t[k + 2] && t[2..][k + 1] == t[k + 3];
            }
          }
        }
        if AtomTail(t) {
          assert IsAtomChar(t[1]) && AtomTail(t[2..]);
          assert DottedAtoms(t[2..]);
          forall k | 0 <= k < |t| - 1
            ensures !(t[k] == '.' && t[k + 1] == '.')
          {
            if k >= 2 { assert t[k] == t[2..][k - 2] && t[k + 1] == t[2..][k - 1]; }
          }
          forall k | 0 <= k < |t| ensures IsAtomChar(t[k]) || t[k] == '.' {
            if k >= 2 { assert t[k] == t[2..][k - 2]; }
          }
          if |t| > 2 { assert t[|t| - 1] == t[2..][|t| - 3]; }
        }
      } else {
        assert !DottedAtoms(t);
      }
    } else {
      AtomTailIsDottedAtoms(t[1..]);
      if DottedAtoms(t) {
        assert DottedAtoms(t[1..]) by {
          forall k | 0 <= k < |t[1..]| - 1
            ensures !(t[1..][k] == '.' && t[1..][k + 1] == '.')
          {
            assert t[1..][k] == t[k + 1] && t[1..][k + 1] == t[k + 2];
          }
        }
      }
      if AtomTail(t) {
        assert IsAtomChar(t[0]) && AtomTail(t[1..]);
        forall k | 0 <= k < |t| - 1
          ensures !(t[k] == '.' && t[k + 1] == '.')
        {
          if k >= 1 { assert t[k] == t[1..][k - 1] && t[k + 1] == t[1..][k]; }
        }
        forall k | 0 <= k < |t| ensures IsAtomChar(t[k]) || t[k] == '.' {
          if k >= 1 { assert t[k] == t[1..][k - 1]; }
        }
        if |t| > 1 { assert t[|t| - 1] == t[1..][|t| - 2]; }
      }
    }
  }

  /** The recogniser's local part is exactly the described one. */
  lemma {:induction false} LocalPartIsWellFormed(l: string)
    ensures LocalPart(l) <==> WellFormedLocalPart(l)
  {
    if |l| >= 1 {
      AtomTailIsDottedAtoms(l[1..]);
      assert l == [l[0]] + l[1..];
      if WellFormedLocalPart(l) {
        assert IsAtomChar(l[0]);
        assert DottedAtoms(l[1..]) by {
          forall k | 0 <= k < |l[1..]| - 1
            ensures !(l[1..][k] == '.' && l[1..][k + 1] == '.')
          {
            assert l[1..][k] == l[k + 1] && l[1..][k + 1] == l[k + 2];
          }
        }
      }
      if LocalPart(l) {
        forall k | 0 <= k < |l| - 1
          ensures !(l[k] == '.' && l[k + 1] == '.')
        {
          if k >= 1 { assert l[k] == l[1..][k - 1] && l[k + 1] == l[1..][k]; }
        }
        forall k | 0 <= k < |l| ensures IsAtomChar(l[k]) || l[k] == '.' {
          if k >= 1 { assert l[k] == l[1..][k - 1]; }
        }
        if |l| > 1 { assert l[|l| - 1] == l[1..][|l| - 2]; }
      }
    }
  }

  /** The recogniser's domain is exactly the described one. */
  lemma {:induction false} DomainPartIsWellFormed(d: string)
    ensures DomainPart(d) <==> WellFormedDomain(d)
    decreases |d|
  {
    var j := IndexOf(d, '.');
    if j < 0 {
      SplitNoSeparator(d, '.');
    } else {
      var rest := d[j + 1..];
      var parts, tail := Split(d, '.'), Split(rest, '.');
      assert parts == [d[..j]] + tail;
      SplitMany(rest, '.');
      if '.' in rest {
        DomainPartIsWellFormed(rest);
        DomainStep(d, j, parts, tail);
      } else {
        SplitNoSeparator(rest, '.');
        assert parts == [d[..j], rest];
        assert !DomainPart(rest);
        if WellFormedLabels(parts) {
          assert parts[0] != [] && AllLabelChars(parts[0]);
        }
      }
    }
  }

  lemma DomainStep(d: string, j: int, parts: seq<string>, tail: seq<string>)
    requires 0 <= j < |d| && j == IndexOf(d, '.')
    requires '.' in d[j + 1..]
    requires tail == Split(d[j + 1..], '.') && parts == [d[..j]] + tail
    requires |tail| >= 2
    ensures WellFormedLabels(parts) <==> (0 < j && AllLabelChars(d[..j]) && WellFormedLabels(tail))
    ensures DomainPart(d) <==> (0 < j && AllLabelChars(d[..j]) && DomainPart(d[j + 1..]))
  {
    var rest := d[j + 1..];
    assert !AllWordChars(rest) by {
      var k :| 0 <= k < |rest| && rest[k] == '.';
      assert !IsWordChar(rest[k]);
    }
    LabelsStep(d[..j], tail);
  }

  lemma LabelsStep(head: string, tail: seq<string>)
    requires |tail| >= 2
    ensures WellFormedLabels([head] + tail) <==> (head != [] && AllLabelChars(head) && WellFormedLabels(tail))
  {
    var parts := [head] + tail;
    assert parts[|parts| - 1] == tail[|tail| - 1];
    assert parts[0] == head;
    if WellFormedLabels(parts) {
      assert parts[0] != [] && AllLabelChars(parts[0]);
      forall i | 0 <= i < |tail| - 1 ensures tail[i] != [] && AllLabelChars(tail[i]) {
        assert tail[i] == parts[i + 1];
      }
    }
    if head != [] && AllLabelChars(head) && WellFormedLabels(tail) {
      forall i | 0 <= i < |parts| - 1 ensures parts[i] != [] && AllLabelChars(parts[i]) {
        if i > 0 { assert parts[i] == tail[i - 1]; }
      }
    }
  }

  // ---------------------------------------------------------------------------
  // What an accepted address looks like
  // ---------------------------------------------------------------------------

  /** Neither the length limits nor the pattern accept an over-long address or
      one whose first `@` lies beyond position 64. */
  lemma EmailLengthLimits(s: string)
    ensures |s| > MaxAddressLength ==> !CheckEmail(s)
    ensures IndexOf(s, '@') > MaxLocalPartLength ==> !CheckEmail(s)
  {
  }

  /** Conversely, a well-formed local part of at most 64 characters, an `@` and
      a well-formed domain, 256 characters in all, make an accepted address. */
  lemma WellFormedEmailAccepted(l: string, d: string)
    requires WellFormedLocalPart(l) && WellFormedDomain(d)
    requires |l| <= MaxLocalPartLength && |l| + 1 + |d| <= MaxAddressLength
    ensures CheckEmail(l + "@" + d)
  {
    var s := l + "@" + d;
    assert '@' !in l by {
      forall k | 0 <= k < |l| ensures l[k] != '@' { assert IsAtomChar(l[k]) || l[k] == '.'; }
    }
    IndexOfAfter(l, '@', d);
    assert s[..|l|] == l && s[|l| + 1..] == d;
    LocalPartIsWellFormed(l);
    DomainPartIsWellFormed(d);
  }

  /** A local part of exactly 64 characters passes the position limit. */
  lemma LongestLocalPartAccepted(l: string, d: string)
    requires |l| == MaxLocalPartLength && WellFormedLocalPart(l)
    requires WellFormedDomain(d) && |d| <= MaxAddressLength - MaxLocalPartLength - 1
    ensures CheckEmail(l + "@" + d)
  {
    WellFormedEmailAccepted(l, d);
  }

  /** An accepted address has exactly one `@`; the text before it is a
      well-formed local part of at most 64 characters, and the text after it is
      a well-formed domain, which ends in word characters. */
  lemma {:induction false} AcceptedEmailShape(s: string)
    requires CheckEmail(s)
    ensures |s| <= MaxAddressLength
    ensures exists at | 0 <= at <= MaxLocalPartLength && at < |s| ::
      && s[at] == '@'
      && (forall k | 0 <= k < |s| && k != at :: s[k] != '@')
      && WellFormedLocalPart(s[..at])
      && WellFormedDomain(s[at + 1..])
      && '.' in s[at + 1..]
      && IsWordChar(s[|s| - 1])
  {
    var at := IndexOf(s, '@');
    var l, d := s[..at], s[at + 1..];
    LocalPartIsWellFormed(l);
    DomainPartIsWellFormed(d);
    SplitMany(d, '.');
    forall k | 0 <= k < |s| && k != at ensures s[k] != '@' {
      if k < at {
        assert s[k] == l[k];
        LocalPartHasNoColonOrAt(l);
      } else {
        assert s[k] == d[k - at - 1];
        DomainHasNoAt(d);
      }
    }
    DomainEndsInWordChar(d);
    assert s[|s| - 1] == d[|d| - 1];
  }

  lemma {:induction false} DomainHasNoAt(d: string)
    requires DomainPart(d)
    ensures '@' !in d
    decreases |d|
  {
    var j := IndexOf(d, '.');
    var rest := d[j + 1..];
    assert d == d[..j] + "." + rest;
    assert forall k | 0 <= k < j :: d[..j][k] != '@' by {
      forall k | 0 <= k < j ensures d[..j][k] != '@' { assert IsLabelChar(d[..j][k]); }
    }
    if |rest| > 0 && AllWordChars(rest) {
      forall k | 0 <= k < |rest| ensures rest[k] != '@' { assert IsWordChar(rest[k]); }
    } else {
      DomainHasNoAt(rest);
    }
  }

  lemma {:induction false} DomainEndsInWordChar(d: string)
    requires DomainPart(d)
    ensures |d| > 0 && IsWordChar(d[|d| - 1])
    decreases |d|
  {
    var j := IndexOf(d, '.');
    var rest := d[j + 1..];
    if |rest| > 0 && AllWordChars(rest) {
      assert d[|d| - 1] == rest[|rest| - 1];
    } else {
      DomainEndsInWordChar(rest);
      assert d[|d| - 1] == rest[|rest| - 1];
    }
  }

  /** No string passes both validators: `:` may not appear in a local part, and
      a URL has one before any `@` could come. */
  lemma EmailIsNotURL(s: string)
    ensures !(CheckEmail(s) && CheckURL(s))
  {
    if CheckURL(s) {
      var colon := if s[4] == ':' then 4 else 5;
      assert s[colon] == ':' && forall k | 0 <= k <= colon :: s[k] != '@' by {
        assert s[..4] == "http";
      }
      if CheckEmail(s) {
        NoColonBeforeAt(s);
      }
    }
  }

  lemma NoColonBeforeAt(s: string)
    requires CheckEmail(s)
    ensures forall k | 0 <= k < |s| && (s[k] == ':' || s[k] == '@') :: k >= IndexOf(s, '@') >= 0
  {
    var at := IndexOf(s, '@');
    LocalPartIsWellFormed(s[..at]);
    LocalPartHasNoColonOrAt(s[..at]);
    forall k | 0 <= k < at ensures s[k] != ':' && s[k] != '@' {
      assert s[k] == s[..at][k];
    }
  }

  /** Neither `:` nor `@` is an atom character, so neither is in a local part. */
  lemma LocalPartHasNoColonOrAt(l: string)
    requires WellFormedLocalPart(l)
    ensures forall k | 0 <= k < |l| :: l[k] != ':' && l[k] != '@'
  {
    forall k | 0 <= k < |l| ensures l[k] != ':' && l[k] != '@' {
      assert IsAtomChar(l[k]) || l[k] == '.';
    }
  }
}
