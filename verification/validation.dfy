/**
 * The form checks of the contact book: JavaScript's `\s` class, `String.prototype.trim`,
 * the email pattern `^[^\s@]+@[^\s@]+\.[^\s@]+$`, and `validateForm`.
 */
module Validation {

  /**
   * A character of JavaScript's `\s` class, which is also the set that `trim`
   * strips: tab, line feed, vertical tab, form feed, carriage return, space,
   * no-break space, the Unicode space separators, line and paragraph
   * separators, and the byte order mark.
   */
  predicate IsSpace(c: char)
  {
    c == '\t' || c == '\n' || c == '\U{000B}' || c == '\U{000C}' || c == '\r' || c == ' '
    || c == '\U{00A0}' || c == '\U{1680}' || ('\U{2000}' <= c <= '\U{200A}')
    || c == '\U{2028}' || c == '\U{2029}' || c == '\U{202F}' || c == '\U{205F}'
    || c == '\U{3000}' || c == '\U{FEFF}'
  }

  /** The string holds a character that is not whitespace. */
  ghost predicate Visible(s: string)
  {
    exists i :: 0 <= i < |s| && !IsSpace(s[i])
  }

  function TrimStart(s: string): string
  {
    if s != [] && IsSpace(s[0]) then TrimStart(s[1..]) else s
  }

  function TrimEnd(s: string): string
  {
    if s != [] && IsSpace(s[|s| - 1]) then TrimEnd(s[..|s| - 1]) else s
  }

  /** `s.trim()`. */
  function Trim(s: string): string
  {
    TrimEnd(TrimStart(s))
  }

  lemma {:induction false} TrimStartShape(s: string)
    ensures var r := TrimStart(s);
      && |r| <= |s| && r == s[|s| - |r|..]
      && (forall i :: 0 <= i < |s| - |r| ==> IsSpace(s[i]))
      && (r != [] ==> !IsSpace(r[0]))
  {
    if s != [] && IsSpace(s[0]) {
      TrimStartShape(s[1..]);
      var r := TrimStart(s[1..]);
      forall i | 0 <= i < |s| - |r| ensures IsSpace(s[i]) {
        if i > 0 { assert s[i] == s[1..][i - 1]; }
      }
      assert s[1..][|s[1..]| - |r|..] == s[|s| - |r|..];
    }
  }

  lemma {:induction false} TrimEndShape(s: string)
    ensures var r := TrimEnd(s);
      && |r| <= |s| && r == s[..|r|]
      && (forall i :: |r| <= i < |s| ==> IsSpace(s[i]))
      && (r != [] ==> !IsSpace(r[|r| - 1]))
  {
    if s != [] && IsSpace(s[|s| - 1]) {
      var p := s[..|s| - 1];
      TrimEndShape(p);
      var r := TrimEnd(p);
      forall i | |r| <= i < |s| ensures IsSpace(s[i]) {
        if i < |s| - 1 { assert s[i] == p[i]; }
      }
      assert p[..|r|] == s[..|r|];
    }
  }

  /**
   * `s.trim()` is the slice of `s` left after removing the whitespace at both
   * ends: it neither starts nor ends with whitespace, and everything cut off
   * is whitespace.
   */
  lemma TrimShape(s: string)
    ensures var r := Trim(s);
      exists lo, hi :: 0 <= lo <= hi <= |s| && r == s[lo..hi]
        && (forall i :: 0 <= i < lo ==> IsSpace(s[i]))
        && (forall i :: hi <= i < |s| ==> IsSpace(s[i]))
        && (r != [] ==> !IsSpace(r[0]) && !IsSpace(r[|r| - 1]))
  {
    var t := TrimStart(s);
    TrimStartShape(s);
    TrimEndShape(t);
    var r := TrimEnd(t);
    var lo := |s| - |t|;
    var hi := lo + |r|;
    assert r == s[lo..hi];
    forall i | hi <= i < |s| ensures IsSpace(s[i]) {
      assert s[i] == t[i - lo];
    }
    if r != [] {
      assert r[0] == t[0];
    }
  }

  /** A trimmed field is non-empty exactly when the field holds a non-whitespace character. */
  lemma TrimEmptyIff(s: string)
    ensures Trim(s) != [] <==> Visible(s)
  {
    TrimShape(s);
    var r := Trim(s);
    var lo, hi :| 0 <= lo <= hi <= |s| && r == s[lo..hi]
        && (forall i :: 0 <= i < lo ==> IsSpace(s[i]))
        && (forall i :: hi <= i < |s| ==> IsSpace(s[i]))
        && (r != [] ==> !IsSpace(r[0]) && !IsSpace(r[|r| - 1]));
    if r != [] {
      assert !IsSpace(s[lo]);
    } else {
      assert forall i :: 0 <= i < |s| ==> IsSpace(s[i]);
    }
  }

  // ---------------------------------------------------------------------------
  // The email pattern

  /** A character of the class `[^\s@]`. */
  predicate WordChar(c: char)
  {
    !IsSpace(c) && c != '@'
  }

  predicate AllWordChars(s: string)
  {
    forall i :: 0 <= i < |s| ==> WordChar(s[i])
  }

  /**
   * The regular expression `^[^\s@]+@[^\s@]+\.[^\s@]+$` read literally: the
   * whole string splits as local part, `@`, host, `.`, suffix, with all three
   * parts non-empty and made of `[^\s@]`.
   */
  ghost predicate MatchesEmailPattern(s: string)
  {
    exists at, dot :: 0 < at && at + 1 < dot && dot + 1 < |s| && s[at] == '@' && s[dot] == '.'
      && AllWordChars(s[..at]) && AllWordChars(s[at + 1..dot]) && AllWordChars(s[dot + 1..])
  }

  /** How many times `c` occurs in `s`. */
  function Count(s: string, c: char): nat
  {
    if s == [] then 0 else (if s[0] == c then 1 else 0) + Count(s[1..], c)
  }

  /** Index of the first `c` in `s`, or `|s|` when there is none. */
  function IndexOf(s: string, c: char): nat
  {
    if s == [] then 0 else if s[0] == c then 0 else 1 + IndexOf(s[1..], c)
  }

  predicate NoSpace(s: string)
  {
    forall i :: 0 <= i < |s| ==> !IsSpace(s[i])
  }

  /** The string has a `.` that is neither its first nor its last character. */
  predicate HasInnerDot(d: string)
  {
    exists p :: 0 < p < |d| - 1 && d[p] == '.'
  }

  /**
   * The shape the email pattern accepts, stated structurally: no whitespace,
   * exactly one `@`, a non-empty local part, and a domain with a `.` that is
   * neither its first nor its last character.
   */
  predicate EmailShaped(s: string)
  {
    NoSpace(s) && Count(s, '@') == 1
    && var at := IndexOf(s, '@');
      0 < at < |s| && HasInnerDot(s[at + 1..])
  }

  lemma {:induction false} CountZero(s: string, c: char)
    ensures Count(s, c) == 0 <==> forall i :: 0 <= i < |s| ==> s[i] != c
  {
    if s != [] {
      CountZero(s[1..], c);
      if Count(s, c) == 0 {
        forall i | 0 <= i < |s| ensures s[i] != c {
          if i > 0 { assert s[i] == s[1..][i - 1]; }
        }
      }
      if forall i :: 0 <= i < |s| ==> s[i] != c {
        assert s[0] != c;
        assert forall i :: 0 <= i < |s[1..]| ==> s[1..][i] == s[i + 1];
      }
    }
  }

  lemma {:induction false} CountAppend(a: string, b: string, c: char)
    ensures Count(a + b, c) == Count(a, c) + Count(b, c)
  {
    if a != [] {
      assert (a + b)[1..] == a[1..] + b;
      CountAppend(a[1..], b, c);
    } else {
      assert a + b == b;
    }
  }

  lemma {:induction false} IndexOfSpec(s: string, c: char)
    ensures IndexOf(s, c) <= |s|
    ensures IndexOf(s, c) < |s| ==> s[IndexOf(s, c)] == c
    ensures forall j :: 0 <= j < IndexOf(s, c) ==> s[j] != c
  {
    if s != [] && s[0] != c {
      IndexOfSpec(s[1..], c);
      forall j | 0 <= j < IndexOf(s, c) ensures s[j] != c {
        if j > 0 { assert s[j] == s[1..][j - 1]; }
      }
    }
  }

  /** Splitting `s` around position `k` splits its count of `c`. */
  lemma CountAround(s: string, k: nat, c: char)
    requires k < |s|
    ensures Count(s, c) == Count(s[..k], c) + (if s[k] == c then 1 else 0) + Count(s[k + 1..], c)
  {
    assert s == s[..k] + ([s[k]] + s[k + 1..]);
    CountAppend(s[..k], [s[k]] + s[k + 1..], c);
    CountAppend([s[k]], s[k + 1..], c);
    assert [s[k]][1..] == [];
  }

  lemma PatternIsShaped(s: string)
    requires MatchesEmailPattern(s)
    ensures EmailShaped(s)
  {
    var at, dot :| 0 < at && at + 1 < dot && dot + 1 < |s| && s[at] == '@' && s[dot] == '.'
      && AllWordChars(s[..at]) && AllWordChars(s[at + 1..dot]) && AllWordChars(s[dot + 1..]);
    var local, host, suffix := s[..at], s[at + 1..dot], s[dot + 1..];
    forall i | 0 <= i < |s| ensures !IsSpace(s[i]) && (i != at ==> s[i] != '@') {
      if i < at {
        assert s[i] == local[i];
      } else if at < i < dot {
        assert s[i] == host[i - at - 1];
      } else if dot < i {
        assert s[i] == suffix[i - dot - 1];
      }
    }
    var rest := s[at + 1..];
    assert forall i :: 0 <= i < |rest| ==> rest[i] != '@' by {
      forall i | 0 <= i < |rest| ensures rest[i] != '@' { assert rest[i] == s[at + 1 + i]; }
    }
    CountZero(local, '@');
    CountZero(rest, '@');
    CountAround(s, at, '@');
    IndexOfSpec(s, '@');
    assert IndexOf(s, '@') == at;
    assert rest[dot - at - 1] == '.';
  }

  lemma ShapedIsPattern(s: string)
    requires EmailShaped(s)
    ensures MatchesEmailPattern(s)
  {
    var at := IndexOf(s, '@');
    var rest := s[at + 1..];
    IndexOfSpec(s, '@');
    CountAround(s, at, '@');
    CountZero(rest, '@');
    var p :| 0 < p < |rest| - 1 && rest[p] == '.';
    var dot := at + 1 + p;
    assert s[dot] == '.';
    var local, host, suffix := s[..at], s[at + 1..dot], s[dot + 1..];
    assert AllWordChars(local);
    assert AllWordChars(host) by {
      forall i | 0 <= i < |host| ensures WordChar(host[i]) {
        assert host[i] == rest[i];
      }
    }
    assert AllWordChars(suffix) by {
      forall i | 0 <= i < |suffix| ensures WordChar(suffix[i]) {
        assert suffix[i] == rest[p + 1 + i];
      }
    }
  }

  /**
   * The email pattern holds exactly when the string is email-shaped: no
   * whitespace, exactly one `@`, a non-empty local part, and a `.` inside the
   * domain that is neither its first nor its last character.
   */
  lemma EmailPatternCharacterised(s: string)
    ensures MatchesEmailPattern(s) <==> EmailShaped(s)
  {
    if MatchesEmailPattern(s) { PatternIsShaped(s); }
    if EmailShaped(s) { ShapedIsPattern(s); }
  }

  /** The examples the pattern is meant to separate. */
  lemma EmailExamples()
    ensures MatchesEmailPattern("a@b.co")
    ensures !MatchesEmailPattern("a@b")
    ensures !MatchesEmailPattern("a.b.com")
  {
    var s := "a@b.co";
    assert s[..1] == "a" && s[2..3] == "b" && s[4..] == "co";
    assert 0 < 1 && 1 + 1 < 3 && 3 + 1 < |s| && s[1] == '@' && s[3] == '.'
      && AllWordChars(s[..1]) && AllWordChars(s[1 + 1..3]) && AllWordChars(s[3 + 1..]);
    EmailPatternCharacterised("a@b");
    EmailPatternCharacterised("a.b.com");
    assert Count("a.b.com", '@') == 0;
    assert IndexOf("a@b", '@') == 1;
    assert "a@b"[2..] == "b";
  }

  // ---------------------------------------------------------------------------
  // validateForm

  /** The four fields of the add-contact form, as typed. */
  datatype Form = Form(nom: string, prenom: string, email: string, telephone: string)

  /** Every field holds something other than whitespace. */
  ghost predicate AllFilled(f: Form)
  {
    Visible(f.nom) && Visible(f.prenom) && Visible(f.email) && Visible(f.telephone)
  }

  /** The form with every field trimmed, as both `validateForm` and `handleSubmit` read it. */
  function Trimmed(f: Form): Form
  {
    Form(Trim(f.nom), Trim(f.prenom), Trim(f.email), Trim(f.telephone))
  }

  /**
   * `validateForm`: whether the submit button ends up disabled. It is enabled
   * exactly when all four trimmed fields are non-empty and the trimmed email
   * matches the pattern.
   */
  function ValidateForm(f: Form): (disabled: bool)
    ensures !disabled <==> AllFilled(f) && MatchesEmailPattern(Trim(f.email))
  {
    TrimEmptyIff(f.nom);
    TrimEmptyIff(f.prenom);
    TrimEmptyIff(f.email);
    TrimEmptyIff(f.telephone);
    EmailPatternCharacterised(Trim(f.email));
    var t := Trimmed(f);
    var allFilled := t.nom != "" && t.prenom != "" && t.email != "" && t.telephone != "";
    var emailValid := EmailShaped(t.email);
    !(allFilled && emailValid)
  }
}
