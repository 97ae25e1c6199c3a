/** Filename patterns: backtracking matching against the language of a pattern. */
module Fnmatch {

  const NOMATCH := 1

  // ---------- what a pattern means ----------

  datatype Token = One | Any | Literal(c: char)

  // The tokens of a pattern. A backslash makes the next character literal, unless it is the last one
  // or FNM_NOESCAPE is set.
  function Tokens(p: string, noescape: bool): seq<Token> {
    if p == [] then []
    else if p[0] == '?' then [One] + Tokens(p[1..], noescape)
    else if p[0] == '*' then [Any] + Tokens(p[1..], noescape)
    else if p[0] == '\\' && !noescape && |p| > 1 then [Literal(p[1])] + Tokens(p[2..], noescape)
    else [Literal(p[0])] + Tokens(p[1..], noescape)
  }

  // No bracket expression starts in the pattern.
  predicate BracketFree(p: string, noescape: bool) {
    p != [] ==>
      if p[0] == '\\' && !noescape && |p| > 1 then BracketFree(p[2..], noescape)
      else p[0] != '[' && BracketFree(p[1..], noescape)
  }

  // A piece of the string that one token stands for.
  predicate Fits(t: Token, piece: string) {
    match t
    case One => |piece| == 1
    case Any => true
    case Literal(c) => piece == [c]
  }

  predicate AllFit(ts: seq<Token>, pieces: seq<string>) {
    |pieces| == |ts| && forall k | 0 <= k < |ts| :: Fits(ts[k], pieces[k])
  }

  function Concat(pieces: seq<string>): string {
    if pieces == [] then [] else pieces[0] + Concat(pieces[1..])
  }

  // The language of a pattern: the strings that split into one fitting piece for each token.
  ghost predicate InLanguage(ts: seq<Token>, s: string) {
    exists pieces :: AllFit(ts, pieces) && Concat(pieces) == s
  }

  // ---------- the language, token by token ----------

  lemma LanguageEmpty(s: string)
    ensures InLanguage([], s) <==> s == []
  {
    assert AllFit([], []) && Concat([]) == [];
  }

  lemma LanguageFirst(ts: seq<Token>, s: string)
    requires ts != []
    ensures InLanguage(ts, s) <==> exists k :: 0 <= k <= |s| && Fits(ts[0], s[..k]) && InLanguage(ts[1..], s[k..])
  {
    if InLanguage(ts, s) {
      var pieces :| AllFit(ts, pieces) && Concat(pieces) == s;
      var k := |pieces[0]|;
      assert s[..k] == pieces[0] && s[k..] == Concat(pieces[1..]);
      assert AllFit(ts[1..], pieces[1..]);
    }
    if k :| 0 <= k <= |s| && Fits(ts[0], s[..k]) && InLanguage(ts[1..], s[k..]) {
      var pieces :| AllFit(ts[1..], pieces) && Concat(pieces) == s[k..];
      var all := [s[..k]] + pieces;
      assert all[1..] == pieces;
      assert forall j | 0 < j < |ts| :: ts[j] == ts[1..][j - 1] && all[j] == pieces[j - 1];
      assert AllFit(ts, all) && Concat(all) == s[..k] + s[k..] == s;
    }
  }

  // A token for one character takes the first one.
  lemma LanguageOne(ts: seq<Token>, s: string)
    requires ts != [] && ts[0] != Any
    ensures InLanguage(ts, s) <==> s != [] && Fits(ts[0], s[..1]) && InLanguage(ts[1..], s[1..])
  {
    LanguageFirst(ts, s);
    assert forall k | 0 <= k <= |s| && Fits(ts[0], s[..k]) :: k == 1;
  }

  // A star takes any number of characters; stars in a row are one.
  lemma LanguageAny(ts: seq<Token>, s: string)
    requires ts != [] && ts[0] == Any
    ensures InLanguage(ts, s) <==> exists k :: 0 <= k <= |s| && InLanguage(ts[1..], s[k..])
  {
    LanguageFirst(ts, s);
    assert forall k | 0 <= k <= |s| :: Fits(ts[0], s[..k]);
  }

  lemma LanguageStars(ts: seq<Token>, s: string)
    requires |ts| > 1 && ts[0] == Any && ts[1] == Any
    ensures InLanguage(ts, s) <==> InLanguage(ts[1..], s)
  {
    LanguageAny(ts, s);
    if InLanguage(ts, s) {
      var k :| 0 <= k <= |s| && InLanguage(ts[1..], s[k..]);
      LanguageAny(ts[1..], s[k..]);
      var j :| 0 <= j <= |s[k..]| && InLanguage(ts[1..][1..], s[k..][j..]);
      assert s[k..][j..] == s[k + j..];
      LanguageAny(ts[1..], s);
    }
    assert s[0..] == s;
  }

  // ---------- the language, character by character of the pattern ----------

  // A pattern accepts a string.
  ghost predicate Accepts(p: string, noescape: bool, s: string) {
    InLanguage(Tokens(p, noescape), s)
  }

  // The empty pattern accepts the empty string alone.
  lemma EndOfPattern(noescape: bool, s: string)
    ensures Accepts("", noescape, s) <==> s == ""
  {
    LanguageEmpty(s);
  }

  // A question mark stands for any one character.
  lemma QuestionMark(p: string, noescape: bool, s: string)
    ensures Accepts("?" + p, noescape, s) <==> s != "" && Accepts(p, noescape, s[1..])
  {
    hide InLanguage;
    var q := "?" + p;
    assert q[1..] == p;
    LanguageOne(Tokens(q, noescape), s);
  }

  // A star stands for any run of characters.
  lemma Star(p: string, noescape: bool, s: string)
    ensures Accepts("*" + p, noescape, s) <==> exists k :: 0 <= k <= |s| && Accepts(p, noescape, s[k..])
  {
    hide InLanguage;
    var q := "*" + p;
    assert q[1..] == p;
    LanguageAny(Tokens(q, noescape), s);
    assert forall k | 0 <= k <= |s| :: Accepts(p, noescape, s[k..]) == InLanguage(Tokens(q, noescape)[1..], s[k..]);
  }

  // A backslash makes the character behind it, whatever it is, stand for itself.
  lemma Escape(c: char, p: string, s: string)
    ensures Accepts("\\" + [c] + p, false, s) <==> s != "" && s[0] == c && Accepts(p, false, s[1..])
  {
    hide InLanguage;
    var q := "\\" + [c] + p;
    assert q[2..] == p;
    LanguageOne(Tokens(q, false), s);
  }

  // Any other character stands for itself; so does a backslash at the end of the pattern or with FNM_NOESCAPE.
  lemma Itself(c: char, p: string, noescape: bool, s: string)
    requires c != '?' && c != '*' && (c == '\\' ==> noescape || p == "")
    ensures Accepts([c] + p, noescape, s) <==> s != "" && s[0] == c && Accepts(p, noescape, s[1..])
  {
    hide InLanguage;
    var q := [c] + p;
    assert q[1..] == p;
    LanguageOne(Tokens(q, noescape), s);
  }

  // ---------- the matcher ----------

  // match, with flags 0 or FNM_NOESCAPE; a pointer into a string is the rest of the string.
  method Match(pattern: string, str: string, noescape: bool) returns (r: int)
    requires BracketFree(pattern, noescape)
    ensures r == if Accepts(pattern, noescape, str) then 0 else NOMATCH
    decreases |pattern|, 0
  {
    hide InLanguage;
    var p, s := pattern, str;
    while p != []
      invariant BracketFree(p, noescape) && |p| <= |pattern|
      invariant InLanguage(Tokens(pattern, noescape), str) == InLanguage(Tokens(p, noescape), s)
      decreases |p|
    {
      var c := p[0];
      if c == '?' {
        LanguageOne(Tokens(p, noescape), s);
        if s == [] {
          return NOMATCH;
        }
        s := s[1..];
      } else if c == '*' {
        while |p| > 1 && p[1] == '*'
          invariant p != [] && p[0] == '*' && BracketFree(p, noescape) && |p| <= |pattern|
          invariant InLanguage(Tokens(pattern, noescape), str) == InLanguage(Tokens(p, noescape), s)
        {
          LanguageStars(Tokens(p, noescape), s);
          p := p[1..];
        }
        LanguageAny(Tokens(p, noescape), s);
        p := p[1..];
        if p == [] {
          LanguageEmpty(s[|s|..]);
          return 0;
        }
        r := MatchStar(p, s, noescape);
        return;
      } else {
        LanguageOne(Tokens(p, noescape), s);
        if c == '\\' && !noescape && |p| > 1 {
          p := p[1..];
          c := p[0];
        }
        if s == [] || s[0] != c {
          return NOMATCH;
        }
        s := s[1..];
      }
      p := p[1..];
    }
    LanguageEmpty(s);
    return if s == [] then 0 else NOMATCH;
  }

  // The loop behind a star: tries the rest of the pattern at every character that is left.
  method MatchStar(p: string, str: string, noescape: bool) returns (r: int)
    requires BracketFree(p, noescape) && p != [] && p[0] != '*'
    ensures r == if exists k :: 0 <= k <= |str| && Accepts(p, noescape, str[k..]) then 0 else NOMATCH
    decreases |p|, 1
  {
    hide InLanguage;
    var s := str;
    ghost var i := 0;
    while s != []
      invariant i <= |str| && s == str[i..]
      invariant forall k | 0 <= k < i :: !InLanguage(Tokens(p, noescape), str[k..])
      decreases |s|
    {
      var m := Match(p, s, noescape);
      if m == 0 {
        return 0;
      }
      s := s[1..];
      i := i + 1;
    }
    LanguageOne(Tokens(p, noescape), []);
    return NOMATCH;
  }
}
