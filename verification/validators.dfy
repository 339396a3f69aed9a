/**
 * The field validators of src/utils/validators.js, each written as its regular expression,
 * with a lemma stating in plain words which strings it accepts.
 */
module Validators {
  import opened Regex

  predicate IsAsciiLower(c: char) { 'a' <= c <= 'z' }
  predicate IsAsciiUpper(c: char) { 'A' <= c <= 'Z' }
  predicate IsAsciiDigit(c: char) { '0' <= c <= '9' }
  predicate IsAsciiLetter(c: char) { IsAsciiLower(c) || IsAsciiUpper(c) }

  // ---------------------------------------------------------------------------------------
  // validateEmail: /^[^\s@]+@[^\s@]+\.[^\s@]+$/
  // ---------------------------------------------------------------------------------------

  const NotSpaceOrAt: CharClass := Complement(Union(Space, Char('@')))
  const EmailChars: Piece := Piece(NotSpaceOrAt, 1, Unbounded)
  const EmailPattern: Pattern := Pattern([], [EmailChars, Lit('@'), EmailChars, Lit('.'), EmailChars])

  predicate ValidEmail(email: string) {
    Test(EmailPattern, email)
  }

  /** No whitespace and no '@'. */
  predicate Plain(s: string) {
    forall i :: 0 <= i < |s| ==> !IsSpace(s[i]) && s[i] != '@'
  }

  /** A domain: plain, with a '.' that is neither its first nor its last character. */
  predicate IsDomain(d: string) {
    Plain(d) && exists j :: 0 < j < |d| - 1 && d[j] == '.'
  }

  /** A non-empty plain local part, one '@', then a domain. */
  predicate EmailShape(s: string) {
    exists i :: 0 < i < |s| && s[i] == '@' && Plain(s[..i]) && IsDomain(s[i + 1..])
  }

  lemma InNotSpaceOrAt(c: char)
    ensures In(c, NotSpaceOrAt) <==> !IsSpace(c) && c != '@'
  {
    assert In(c, Char('@')) <==> c == '@';
    assert In(c, Union(Space, Char('@'))) <==> IsSpace(c) || c == '@';
  }

  lemma PlainIsAllIn(s: string)
    ensures Plain(s) <==> AllIn(s, NotSpaceOrAt)
  {
    forall c ensures In(c, NotSpaceOrAt) <==> !IsSpace(c) && c != '@' {
      InNotSpaceOrAt(c);
    }
  }

  /** The part of the pattern after the local part: `@[^\s@]+\.[^\s@]+`. */
  const AtDomain: seq<Piece> := [Lit('@'), EmailChars, Lit('.'), EmailChars]
  /** The tail of a domain after its first label: `\.[^\s@]+`. */
  const DotLabel: seq<Piece> := [Lit('.'), EmailChars]

  /** A plain label, a '.', and a plain label make a plain string. */
  lemma PlainAroundDot(d: string, j: nat)
    requires j < |d| && d[j] == '.' && Plain(d[..j]) && Plain(d[j + 1..])
    ensures Plain(d)
  {
    forall k | 0 <= k < |d| ensures !IsSpace(d[k]) && d[k] != '@' {
      if k < j {
        assert d[k] == d[..j][k];
      } else if k > j {
        assert d[k] == d[j + 1..][k - j - 1];
      }
    }
  }

  /** What `[^\s@]+\.[^\s@]+` matches is a domain. */
  lemma MatchedDomain(d: string)
    requires MatchPieces([EmailChars] + DotLabel, d)
    ensures IsDomain(d)
  {
    assert DotLabel == [Lit('.')] + [EmailChars];
    MatchCons(EmailChars, DotLabel, d);
    var j :| 0 <= j <= |d| && Fits(j, EmailChars) && AllIn(d[..j], NotSpaceOrAt) && MatchPieces(DotLabel, d[j..]);
    MatchLit('.', [EmailChars], d[j..]);
    MatchLast(EmailChars, d[j..][1..]);
    assert d[j..][1..] == d[j + 1..];
    PlainIsAllIn(d[..j]);
    PlainIsAllIn(d[j + 1..]);
    PlainAroundDot(d, j);
  }

  /** Every domain is matched by `[^\s@]+\.[^\s@]+`. */
  lemma DomainMatched(d: string)
    requires IsDomain(d)
    ensures MatchPieces([EmailChars] + DotLabel, d)
  {
    assert DotLabel == [Lit('.')] + [EmailChars];
    MatchCons(EmailChars, DotLabel, d);
    var j :| 0 < j < |d| - 1 && d[j] == '.';
    PlainIsAllIn(d[j + 1..]);
    PlainIsAllIn(d[..j]);
    MatchLast(EmailChars, d[j + 1..]);
    assert d[j..][1..] == d[j + 1..];
    MatchLit('.', [EmailChars], d[j..]);
  }

  /** `[^\s@]+\.[^\s@]+` matches exactly the domains. */
  lemma DomainIff(d: string)
    ensures MatchPieces([EmailChars] + DotLabel, d) <==> IsDomain(d)
  {
    if MatchPieces([EmailChars] + DotLabel, d) {
      MatchedDomain(d);
    }
    if IsDomain(d) {
      DomainMatched(d);
    }
  }

  lemma ValidEmailIff(s: string)
    ensures ValidEmail(s) <==> EmailShape(s)
  {
    assert EmailPattern.pieces == [EmailChars] + AtDomain;
    assert AtDomain == [Lit('@')] + ([EmailChars] + DotLabel);
    MatchCons(EmailChars, AtDomain, s);
    if ValidEmail(s) {
      var i :| 0 <= i <= |s| && Fits(i, EmailChars) && AllIn(s[..i], NotSpaceOrAt) && MatchPieces(AtDomain, s[i..]);
      MatchLit('@', [EmailChars] + DotLabel, s[i..]);
      assert s[i..][1..] == s[i + 1..];
      DomainIff(s[i + 1..]);
      PlainIsAllIn(s[..i]);
      assert EmailShape(s);
    }
    if EmailShape(s) {
      var i :| 0 < i < |s| && s[i] == '@' && Plain(s[..i]) && IsDomain(s[i + 1..]);
      DomainIff(s[i + 1..]);
      assert s[i..][1..] == s[i + 1..];
      MatchLit('@', [EmailChars] + DotLabel, s[i..]);
      PlainIsAllIn(s[..i]);
    }
  }

  /** A valid email holds exactly one '@'. */
  lemma ValidEmailHasOneAt(s: string)
    requires ValidEmail(s)
    ensures exists i :: 0 <= i < |s| && s[i] == '@'
    ensures forall i, j :: 0 <= i < |s| && 0 <= j < |s| && s[i] == '@' && s[j] == '@' ==> i == j
  {
    ValidEmailIff(s);
    var i :| 0 < i < |s| && s[i] == '@' && Plain(s[..i]) && IsDomain(s[i + 1..]);
    forall k | 0 <= k < |s| && k != i ensures s[k] != '@' {
      if k < i {
        assert s[k] == s[..i][k];
      } else {
        assert s[k] == s[i + 1..][k - i - 1];
      }
    }
  }

  // ---------------------------------------------------------------------------------------
  // validatePassword: /^(?=.*[a-z])(?=.*[A-Z])(?=.*\d)[a-zA-Z\d@$!%*?&]{8,}$/
  // ---------------------------------------------------------------------------------------

  const PasswordChars: CharClass :=
    Union(Range('a', 'z'), Union(Range('A', 'Z'), Union(Range('0', '9'), OneOf("@$!%*?&"))))
  const PasswordBody: Piece := Piece(PasswordChars, 8, Unbounded)
  const PasswordPattern: Pattern :=
    Pattern([Range('a', 'z'), Range('A', 'Z'), Range('0', '9')], [PasswordBody])

  predicate ValidPassword(password: string) {
    Test(PasswordPattern, password)
  }

  predicate IsPasswordChar(c: char) {
    IsAsciiLetter(c) || IsAsciiDigit(c) || c in "@$!%*?&"
  }

  lemma InPasswordChars(c: char)
    ensures In(c, PasswordChars) <==> IsPasswordChar(c)
  {
    InOneOf(c, "@$!%*?&");
    var digitsOrSymbol := Union(Range('0', '9'), OneOf("@$!%*?&"));
    assert In(c, digitsOrSymbol) <==> IsAsciiDigit(c) || c in "@$!%*?&";
    assert In(c, Union(Range('A', 'Z'), digitsOrSymbol)) <==> IsAsciiUpper(c) || In(c, digitsOrSymbol);
  }

  lemma ValidPasswordIff(s: string)
    ensures ValidPassword(s) <==>
      && |s| >= 8
      && (forall i :: 0 <= i < |s| ==> IsPasswordChar(s[i]))
      && (exists i :: 0 <= i < |s| && IsAsciiLower(s[i]))
      && (exists i :: 0 <= i < |s| && IsAsciiUpper(s[i]))
      && (exists i :: 0 <= i < |s| && IsAsciiDigit(s[i]))
  {
    MatchLast(PasswordBody, s);
    forall c ensures In(c, PasswordChars) <==> IsPasswordChar(c) {
      InPasswordChars(c);
    }
    if AllIn(s, PasswordChars) {
      forall k | k in PasswordPattern.lookaheads
        ensures Lookahead(k, s) <==> exists i :: 0 <= i < |s| && In(s[i], k)
      {
        if i :| 0 <= i < |s| && In(s[i], k) {
          assert forall j :: 0 <= j < i ==> !IsLineTerminator(s[j]);
        }
      }
      assert PasswordPattern.lookaheads[0] == Range('a', 'z');
      assert PasswordPattern.lookaheads[1] == Range('A', 'Z');
      assert PasswordPattern.lookaheads[2] == Range('0', '9');
    }
  }

  // ---------------------------------------------------------------------------------------
  // validateMatricule: /^[A-Za-z0-9]{3,20}$/
  // ---------------------------------------------------------------------------------------

  const Alphanumeric: CharClass := Union(Range('A', 'Z'), Union(Range('a', 'z'), Range('0', '9')))
  const MatriculePattern: Pattern := Pattern([], [Piece(Alphanumeric, 3, AtMost(20))])

  predicate ValidMatricule(matricule: string) {
    Test(MatriculePattern, matricule)
  }

  lemma ValidMatriculeIff(s: string)
    ensures ValidMatricule(s) <==>
      3 <= |s| <= 20 && forall i :: 0 <= i < |s| ==> IsAsciiLetter(s[i]) || IsAsciiDigit(s[i])
  {
    MatchLast(Piece(Alphanumeric, 3, AtMost(20)), s);
    forall c ensures In(c, Alphanumeric) <==> IsAsciiLetter(c) || IsAsciiDigit(c) {
      assert In(c, Union(Range('a', 'z'), Range('0', '9'))) <==> IsAsciiLower(c) || IsAsciiDigit(c);
    }
  }

  // ---------------------------------------------------------------------------------------
  // validatePhone: /^[\+]?[0-9]{10,15}$/ after phone.replace(/[\s\-\(\)]/g, '')
  // ---------------------------------------------------------------------------------------

  const PhoneNoise: CharClass := Union(Space, Union(Char('-'), Union(Char('('), Char(')'))))
  const PhonePlus: Piece := Piece(Char('+'), 0, AtMost(1))
  const PhoneDigits: Piece := Piece(Range('0', '9'), 10, AtMost(15))
  const PhonePattern: Pattern := Pattern([], [PhonePlus, PhoneDigits])

  /** The phone number with whitespace, '-', '(' and ')' removed. */
  function StripPhone(phone: string): string {
    RemoveAll(phone, PhoneNoise)
  }

  predicate ValidPhone(phone: string) {
    Test(PhonePattern, StripPhone(phone))
  }

  predicate AllDigits(s: string) {
    forall i :: 0 <= i < |s| ==> IsAsciiDigit(s[i])
  }

  lemma ValidPhoneIff(s: string)
    ensures ValidPhone(s) <==>
      var t := StripPhone(s);
      || (10 <= |t| <= 15 && AllDigits(t))
      || (11 <= |t| <= 16 && t[0] == '+' && AllDigits(t[1..]))
  {
    PhoneIff(StripPhone(s));
  }

  /** The pattern after stripping: ten to fifteen digits, optionally after one '+'. */
  lemma PhoneIff(t: string)
    ensures Test(PhonePattern, t) <==>
      || (10 <= |t| <= 15 && AllDigits(t))
      || (11 <= |t| <= 16 && t[0] == '+' && AllDigits(t[1..]))
  {
    assert PhonePattern.pieces == [PhonePlus] + [PhoneDigits];
    MatchCons(PhonePlus, [PhoneDigits], t);
    if Test(PhonePattern, t) {
      var n :| 0 <= n <= |t| && Fits(n, PhonePlus) && AllIn(t[..n], PhonePlus.k) && MatchPieces([PhoneDigits], t[n..]);
      PhoneSplit(t, n);
    } else {
      if 10 <= |t| <= 15 && AllDigits(t) {
        PhoneNoPlus(t);
      }
      if 11 <= |t| <= 16 && t[0] == '+' && AllDigits(t[1..]) {
        PhoneWithPlus(t);
      }
    }
  }

  lemma PhoneSplit(t: string, n: nat)
    requires n <= |t| && Fits(n, PhonePlus) && AllIn(t[..n], PhonePlus.k) && MatchPieces([PhoneDigits], t[n..])
    ensures || (10 <= |t| <= 15 && AllDigits(t))
            || (11 <= |t| <= 16 && t[0] == '+' && AllDigits(t[1..]))
  {
    MatchLast(PhoneDigits, t[n..]);
    if n == 0 {
      assert t[0..] == t;
    } else {
      assert t[..1][0] == t[0];
    }
  }

  lemma PhoneNoPlus(t: string)
    requires 10 <= |t| <= 15 && AllDigits(t)
    ensures exists n :: 0 <= n <= |t| && Fits(n, PhonePlus) && AllIn(t[..n], PhonePlus.k) && MatchPieces([PhoneDigits], t[n..])
  {
    MatchLast(PhoneDigits, t);
    assert t[0..] == t;
    assert AllIn(t[..0], PhonePlus.k);
  }

  lemma PhoneWithPlus(t: string)
    requires 11 <= |t| <= 16 && t[0] == '+' && AllDigits(t[1..])
    ensures exists n :: 0 <= n <= |t| && Fits(n, PhonePlus) && AllIn(t[..n], PhonePlus.k) && MatchPieces([PhoneDigits], t[n..])
  {
    MatchLast(PhoneDigits, t[1..]);
    assert AllIn(t[..1], PhonePlus.k);
    assert Fits(1, PhonePlus);
  }

  /** Stripping is what the pattern sees: a number already stripped is judged unchanged. */
  lemma ValidPhoneStripped(s: string)
    ensures ValidPhone(StripPhone(s)) <==> ValidPhone(s)
  {
    RemoveAllIdempotent(s, PhoneNoise);
  }

  // ---------------------------------------------------------------------------------------
  // validateName: /^[a-zA-ZÀ-ÿ\s]{2,50}$/
  // ---------------------------------------------------------------------------------------

  const NameChars: CharClass :=
    Union(Range('a', 'z'), Union(Range('A', 'Z'), Union(Range('\U{00C0}', '\U{00FF}'), Space)))
  const NamePattern: Pattern := Pattern([], [Piece(NameChars, 2, AtMost(50))])

  predicate ValidName(name: string) {
    Test(NamePattern, name)
  }

  lemma ValidNameIff(s: string)
    ensures ValidName(s) <==>
      && 2 <= |s| <= 50
      && forall i :: 0 <= i < |s| ==> IsAsciiLetter(s[i]) || ('\U{00C0}' <= s[i] <= '\U{00FF}') || IsSpace(s[i])
  {
    MatchLast(Piece(NameChars, 2, AtMost(50)), s);
    forall c ensures In(c, NameChars) <==> IsAsciiLetter(c) || ('\U{00C0}' <= c <= '\U{00FF}') || IsSpace(c) {
      var latinOrSpace := Union(Range('\U{00C0}', '\U{00FF}'), Space);
      assert In(c, latinOrSpace) <==> ('\U{00C0}' <= c <= '\U{00FF}') || IsSpace(c);
      assert In(c, Union(Range('A', 'Z'), latinOrSpace)) <==> IsAsciiUpper(c) || In(c, latinOrSpace);
    }
  }

  /** Hyphens and apostrophes are not name characters. */
  lemma ValidNameRejectsPunctuation(s: string)
    requires ValidName(s)
    ensures '-' !in s && '\'' !in s
  {
    ValidNameIff(s);
  }

  // ---------------------------------------------------------------------------------------
  // validateStructure: membership in a fixed list
  // ---------------------------------------------------------------------------------------

  const Structures: seq<string> := ["IT", "HR", "Finance", "Marketing", "Operations", "Sales"]

  predicate ValidStructure(structure: string) {
    structure in Structures
  }

  /**
   * `includes` compares whole strings exactly: no case folding and no trimming, so a department
   * typed in another case or with a stray space is refused.
   */
  lemma StructureExactMatch()
    ensures ValidStructure("IT") && ValidStructure("Finance")
    ensures !ValidStructure("it") && !ValidStructure("finance") && !ValidStructure("FINANCE")
    ensures !ValidStructure(" IT") && !ValidStructure("Sales ")
  {
  }
}
