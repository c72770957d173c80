/**
  The line parser: a command line is split into whitespace-separated tokens
  (as extracting strings from a string stream does), the first token becomes
  the command name with every letter upper-cased, and the remaining tokens
  are its arguments in order. A line with no token is not a command.
 */
module Parser {
  import opened Wrappers

  datatype Command = Command(name: string, args: seq<string>)

  /** The characters stream extraction skips: isspace in the "C" locale. */
  predicate IsSpace(c: char)
  {
    c == ' ' || c == '\t' || c == '\n' || c == '\U{000B}' || c == '\U{000C}' || c == '\r'
  }

  /** toupper in the "C" locale: only 'a'..'z' change. */
  function UpperChar(c: char): char
  {
    if 'a' <= c <= 'z' then (c as int - 32) as char else c
  }

  function Upper(s: string): (u: string)
    ensures |u| == |s|
  {
    seq(|s|, i requires 0 <= i < |s| => UpperChar(s[i]))
  }

  /** A token as extraction produces it: at least one character, none of them whitespace. */
  predicate IsWord(w: string)
  {
    |w| > 0 && forall i :: 0 <= i < |w| ==> !IsSpace(w[i])
  }

  predicate AllWords(ts: seq<string>)
  {
    forall i :: 0 <= i < |ts| ==> IsWord(ts[i])
  }

  predicate Blank(s: string)
  {
    forall i :: 0 <= i < |s| ==> IsSpace(s[i])
  }

  /** The length of the run of non-whitespace characters that starts `s`. */
  function WordLen(s: string): (n: nat)
    ensures n <= |s|
    ensures forall i :: 0 <= i < n ==> !IsSpace(s[i])
    ensures n == |s| || IsSpace(s[n])
  {
    if s == [] || IsSpace(s[0]) then 0 else 1 + WordLen(s[1..])
  }

  /** The tokens of a line, in order. */
  function Tokens(s: string): seq<string>
    decreases |s|
  {
    if s == [] then []
    else if IsSpace(s[0]) then Tokens(s[1..])
    else
      var n := WordLen(s);
      [s[..n]] + Tokens(s[n..])
  }

  /** parse, as a function of the line. */
  function ParseLine(s: string): Option<Command>
  {
    var ts := Tokens(s);
    if ts == [] then None else Some(Command(Upper(ts[0]), ts[1..]))
  }

  /** parse: tokenize, then upper-case the name character by character, in place. */
  method Parse(input: string) returns (r: Option<Command>)
    ensures r == ParseLine(input)
  {
    var tokens := Tokens(input);
    if tokens == [] {
      return None;
    }
    var name := tokens[0];
    var i := 0;
    while i < |name|
      invariant 0 <= i <= |name| == |tokens[0]|
      invariant name[..i] == Upper(tokens[0])[..i]
      invariant name[i..] == tokens[0][i..]
    {
      name := name[i := UpperChar(name[i])];
      i := i + 1;
    }
    assert name == name[..i];
    assert Upper(tokens[0])[..i] == Upper(tokens[0]);
    r := Some(Command(name, tokens[1..]));
  }

  // ---------------------------------------------------------------------------
  // What tokenization promises
  // ---------------------------------------------------------------------------

  /** Every token is non-empty and free of whitespace. */
  lemma {:induction false} TokensAreWords(s: string)
    ensures AllWords(Tokens(s))
    decreases |s|
  {
    if s == [] {
    } else if IsSpace(s[0]) {
      TokensAreWords(s[1..]);
    } else {
      var n := WordLen(s);
      TokensAreWords(s[n..]);
    }
  }

  /** A line has no token exactly when it is all whitespace. */
  lemma {:induction false} NoTokensIffBlank(s: string)
    ensures Tokens(s) == [] <==> Blank(s)
    decreases |s|
  {
    if s == [] {
    } else if IsSpace(s[0]) {
      NoTokensIffBlank(s[1..]);
      assert Blank(s) <==> Blank(s[1..]) by {
        if Blank(s[1..]) {
          forall i | 0 <= i < |s| ensures IsSpace(s[i]) {
            if i > 0 {
              assert s[i] == s[1..][i - 1];
            }
          }
        }
      }
    } else {
      assert !Blank(s);
    }
  }

  /** The characters outside whitespace, in order. */
  function NonSpace(s: string): (t: string)
    ensures |t| <= |s|
  {
    if s == [] then []
    else if IsSpace(s[0]) then NonSpace(s[1..])
    else [s[0]] + NonSpace(s[1..])
  }

  function Concat(ts: seq<string>): string
  {
    if ts == [] then [] else ts[0] + Concat(ts[1..])
  }

  lemma {:induction false} NonSpaceOfWord(w: string, rest: string)
    requires forall i :: 0 <= i < |w| ==> !IsSpace(w[i])
    ensures NonSpace(w + rest) == w + NonSpace(rest)
    decreases |w|
  {
    if w == [] {
      assert w + rest == rest;
    } else {
      assert (w + rest)[1..] == w[1..] + rest;
      NonSpaceOfWord(w[1..], rest);
      assert w == [w[0]] + w[1..];
    }
  }

  /** Tokenization loses only whitespace: the tokens, run together, are the line without its whitespace. */
  lemma {:induction false} TokensKeepEverythingElse(s: string)
    ensures Concat(Tokens(s)) == NonSpace(s)
    decreases |s|
  {
    if s == [] {
    } else if IsSpace(s[0]) {
      TokensKeepEverythingElse(s[1..]);
    } else {
      var n := WordLen(s);
      TokensKeepEverythingElse(s[n..]);
      assert s == s[..n] + s[n..];
      NonSpaceOfWord(s[..n], s[n..]);
      assert ([s[..n]] + Tokens(s[n..]))[1..] == Tokens(s[n..]);
    }
  }

  // ---------------------------------------------------------------------------
  // Writing tokens back out, and reading them again
  // ---------------------------------------------------------------------------

  /** Tokens joined with single spaces. */
  function Unwords(ts: seq<string>): string
  {
    if ts == [] then []
    else if |ts| == 1 then ts[0]
    else ts[0] + " " + Unwords(ts[1..])
  }

  lemma {:induction false} WordLenOfWord(w: string, rest: string)
    requires IsWord(w) && (rest == [] || IsSpace(rest[0]))
    ensures WordLen(w + rest) == |w|
    decreases |w|
  {
    assert (w + rest)[1..] == w[1..] + rest;
    if |w| == 1 {
      assert w[1..] + rest == rest;
    } else {
      WordLenOfWord(w[1..], rest);
    }
  }

  /** Tokenizing words joined by spaces gives the words back. */
  lemma {:induction false} TokensOfUnwords(ts: seq<string>)
    requires AllWords(ts)
    ensures Tokens(Unwords(ts)) == ts
    decreases |ts|
  {
    if ts == [] {
    } else if |ts| == 1 {
      var w := ts[0];
      assert w == w + [];
      WordLenOfWord(w, []);
      assert w[|w|..] == [];
    } else {
      var w := ts[0];
      var rest := " " + Unwords(ts[1..]);
      assert Unwords(ts) == w + rest;
      WordLenOfWord(w, rest);
      assert (w + rest)[..|w|] == w;
      assert (w + rest)[|w|..] == rest;
      assert rest[1..] == Unwords(ts[1..]);
      TokensOfUnwords(ts[1..]);
      assert [w] + ts[1..] == ts;
    }
  }

  lemma UpperIdempotent(s: string)
    ensures Upper(Upper(s)) == Upper(s)
  {
  }

  lemma UpperKeepsWord(w: string)
    requires IsWord(w)
    ensures IsWord(Upper(w))
  {
    forall i | 0 <= i < |w|
      ensures !IsSpace(Upper(w)[i])
    {
      assert !IsSpace(w[i]);
    }
  }

  /** Everything parse produces is a token: the name and each argument are non-empty and whitespace-free. */
  lemma ParsedAreWords(s: string)
    ensures ParseLine(s).Some? ==> IsWord(ParseLine(s).value.name) && AllWords(ParseLine(s).value.args)
  {
    TokensAreWords(s);
    var ts := Tokens(s);
    if ts != [] {
      UpperKeepsWord(ts[0]);
    }
  }

  /** parse returns nothing exactly for a blank line. */
  lemma ParseNoneIffBlank(s: string)
    ensures ParseLine(s).None? <==> Blank(s)
  {
    NoTokensIffBlank(s);
  }

  /** Parsing the line a command prints as (its name already upper-cased) gives the same command back. */
  lemma ReparseSame(s: string)
    requires ParseLine(s).Some?
    ensures ParseLine(Unwords([ParseLine(s).value.name] + ParseLine(s).value.args)) == ParseLine(s)
  {
    var c := ParseLine(s).value;
    ParsedAreWords(s);
    var ts := [c.name] + c.args;
    assert AllWords(ts) by {
      forall i | 0 <= i < |ts| ensures IsWord(ts[i]) {
        if i > 0 {
          assert ts[i] == c.args[i - 1];
        }
      }
    }
    TokensOfUnwords(ts);
    UpperIdempotent(Tokens(s)[0]);
    assert ts[1..] == c.args;
  }

  lemma {:induction false} TokensSkipBlank(sp: string, x: string)
    requires Blank(sp)
    ensures Tokens(sp + x) == Tokens(x)
    decreases |sp|
  {
    if sp == [] {
      assert sp + x == x;
    } else {
      assert (sp + x)[1..] == sp[1..] + x;
      assert IsSpace(sp[0]);
      TokensSkipBlank(sp[1..], x);
    }
  }

  lemma TokensOfWordThen(w: string, rest: string)
    requires IsWord(w) && (rest == [] || IsSpace(rest[0]))
    ensures Tokens(w + rest) == [w] + Tokens(rest)
  {
    WordLenOfWord(w, rest);
    assert (w + rest)[..|w|] == w;
    assert (w + rest)[|w|..] == rest;
  }

  /** Upper-casing the first token of a line in place changes nothing parse returns. */
  lemma UpperNameReparse(sp: string, w: string, rest: string)
    requires Blank(sp) && IsWord(w) && (rest == [] || IsSpace(rest[0]))
    ensures ParseLine(sp + Upper(w) + rest) == ParseLine(sp + w + rest)
  {
    UpperKeepsWord(w);
    assert sp + Upper(w) + rest == sp + (Upper(w) + rest);
    assert sp + w + rest == sp + (w + rest);
    TokensSkipBlank(sp, Upper(w) + rest);
    TokensSkipBlank(sp, w + rest);
    TokensOfWordThen(Upper(w), rest);
    TokensOfWordThen(w, rest);
    UpperIdempotent(w);
  }
}
