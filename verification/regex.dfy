/**
 * The fragment of JavaScript regular expressions the validators use: anchored patterns
 * (`^...$`, no flags) made of bracketed character classes with `{min,max}` counts, preceded
 * by `(?=.*k)` lookaheads, and the global `replace` of a character class by the empty string.
 */
module Regex {

  /** ECMAScript LineTerminator code points: what `.` does not match. */
  predicate IsLineTerminator(c: char) {
    c == '\n' || c == '\r' || c == '\U{2028}' || c == '\U{2029}'
  }

  /** ECMAScript WhiteSpace and LineTerminator code points: what `\s` matches. */
  predicate IsSpace(c: char) {
    || c == '\t' || c == '\U{000B}' || c == '\U{000C}' || c == ' ' || c == '\U{00A0}'
    || c == '\U{1680}' || ('\U{2000}' <= c <= '\U{200A}') || c == '\U{202F}' || c == '\U{205F}'
    || c == '\U{3000}' || c == '\U{FEFF}'
    || IsLineTerminator(c)
  }

  /** A bracketed character class. */
  datatype CharClass =
    | Range(lo: char, hi: char)       // `a-z`; a single character when lo == hi
    | Space                           // `\s`
    | Union(left: CharClass, right: CharClass)
    | Complement(inner: CharClass)    // `[^...]`

  function Char(c: char): CharClass {
    Range(c, c)
  }

  /** `[c1c2...cn]`: any one of the listed characters. */
  function OneOf(cs: string): CharClass
    requires cs != []
  {
    if |cs| == 1 then Char(cs[0]) else Union(Char(cs[0]), OneOf(cs[1..]))
  }

  lemma {:induction false} InOneOf(c: char, cs: string)
    requires cs != []
    ensures In(c, OneOf(cs)) <==> c in cs
  {
    if |cs| > 1 {
      InOneOf(c, cs[1..]);
      assert cs == [cs[0]] + cs[1..];
    }
  }

  predicate In(c: char, k: CharClass) {
    match k
    case Range(lo, hi) => lo <= c <= hi
    case Space => IsSpace(c)
    case Union(l, r) => In(c, l) || In(c, r)
    case Complement(i) => !In(c, i)
  }

  predicate AllIn(s: string, k: CharClass) {
    forall i :: 0 <= i < |s| ==> In(s[i], k)
  }

  datatype Bound = AtMost(n: nat) | Unbounded

  /** `k{min,max}`; `k+` is `k{1,}` and `k?` is `k{0,1}`. */
  datatype Piece = Piece(k: CharClass, min: nat, max: Bound)

  /** A literal character. */
  function Lit(c: char): Piece {
    Piece(Char(c), 1, AtMost(1))
  }

  /** `^(?=.*k1)...(?=.*kn)p1...pm$`. */
  datatype Pattern = Pattern(lookaheads: seq<CharClass>, pieces: seq<Piece>)

  predicate Fits(n: nat, p: Piece) {
    p.min <= n && (p.max.AtMost? ==> n <= p.max.n)
  }

  /** The pieces, one after the other, match the whole of `s` for some choice of counts. */
  predicate MatchPieces(ps: seq<Piece>, s: string)
    decreases |ps|
  {
    if ps == [] then s == []
    else exists n :: 0 <= n <= |s| && Fits(n, ps[0]) && AllIn(s[..n], ps[0].k) && MatchPieces(ps[1..], s[n..])
  }

  /** `(?=.*k)` at the start of `s`: some character in `k` with no line terminator before it. */
  predicate Lookahead(k: CharClass, s: string) {
    exists i :: 0 <= i < |s| && In(s[i], k) && forall j :: 0 <= j < i ==> !IsLineTerminator(s[j])
  }

  /** `regex.test(s)`. */
  predicate Test(p: Pattern, s: string) {
    && (forall i :: 0 <= i < |p.lookaheads| ==> Lookahead(p.lookaheads[i], s))
    && MatchPieces(p.pieces, s)
  }

  /** `s.replace(/[k]/g, '')`. */
  function RemoveAll(s: string, k: CharClass): (r: string)
    ensures |r| <= |s|
    ensures forall i :: 0 <= i < |r| ==> !In(r[i], k)
    ensures forall c :: c in r <==> c in s && !In(c, k)
  {
    if s == [] then []
    else
      assert s == [s[0]] + s[1..];
      (if In(s[0], k) then [] else [s[0]]) + RemoveAll(s[1..], k)
  }

  /** Removing the characters of a class a second time changes nothing. */
  lemma {:induction false} RemoveAllIdempotent(s: string, k: CharClass)
    ensures RemoveAll(RemoveAll(s, k), k) == RemoveAll(s, k)
  {
    var r := RemoveAll(s, k);
    KeepAll(r, k);
  }

  lemma {:induction false} KeepAll(s: string, k: CharClass)
    requires forall i :: 0 <= i < |s| ==> !In(s[i], k)
    ensures RemoveAll(s, k) == s
  {
    if s != [] {
      KeepAll(s[1..], k);
      assert s == [s[0]] + s[1..];
    }
  }

  /** The last piece matches what remains exactly when its count and class allow it. */
  lemma MatchLast(p: Piece, s: string)
    ensures MatchPieces([p], s) <==> Fits(|s|, p) && AllIn(s, p.k)
  {
    assert [p][1..] == [];
    if Fits(|s|, p) && AllIn(s, p.k) {
      assert s[..|s|] == s && s[|s|..] == [];
    }
  }

  /** A literal character followed by more pieces. */
  lemma MatchLit(c: char, ps: seq<Piece>, s: string)
    ensures MatchPieces([Lit(c)] + ps, s) <==> |s| > 0 && s[0] == c && MatchPieces(ps, s[1..])
  {
    assert ([Lit(c)] + ps)[1..] == ps;
    if |s| > 0 && s[0] == c && MatchPieces(ps, s[1..]) {
      assert AllIn(s[..1], Char(c));
    }
  }

  /** A piece followed by more pieces: some count `n` of leading characters goes to the piece. */
  lemma MatchCons(p: Piece, ps: seq<Piece>, s: string)
    ensures MatchPieces([p] + ps, s) <==>
      exists n :: 0 <= n <= |s| && Fits(n, p) && AllIn(s[..n], p.k) && MatchPieces(ps, s[n..])
  {
    assert ([p] + ps)[1..] == ps;
  }
}
