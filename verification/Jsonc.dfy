/** The JSONC comment scanner and stripper, against a lexer of strings and comments. */
module Jsonc {

  // ------------------------------------------------------------------ a reference lexer

  /** A character outside strings and comments, a string literal (escapes included), or a comment. */
  datatype Token = Plain(c: char) | Literal(text: string) | Comment(text: string) {
    function Text(): string {
      match this
      case Plain(c) => [c]
      case Literal(t) => t
      case Comment(t) => t
    }
  }

  predicate StartsComment(s: string) {
    |s| >= 2 && s[0] == '/' && (s[1] == '/' || s[1] == '*')
  }

  /** How far the rest of a string literal reaches; `escape` says a backslash came just before. */
  function LiteralRest(s: string, escape: bool): (n: nat)
    ensures n <= |s|
  {
    if s == "" then 0
    else if !escape && s[0] == '"' then 1
    else 1 + LiteralRest(s[1..], !escape && s[0] == '\\')
  }

  /** Up to the line's end, which stays. */
  function LineLength(s: string): (n: nat)
    ensures n <= |s| && (n < |s| ==> s[n] == '\r' || s[n] == '\n')
    ensures forall i :: 0 <= i < n ==> s[i] != '\r' && s[i] != '\n'
  {
    if s == "" || s[0] == '\r' || s[0] == '\n' then 0 else 1 + LineLength(s[1..])
  }

  predicate ClosesAt(s: string, i: int) {
    0 <= i && i + 1 < |s| && s[i] == '*' && s[i + 1] == '/'
  }

  /** Through the first closing mark, or to the end when there is none. */
  function BlockLength(s: string): (n: nat)
    ensures n <= |s|
    ensures n < |s| ==> ClosesAt(s, n - 2)
    ensures forall i :: 0 <= i < n - 2 ==> !ClosesAt(s, i)
    ensures !ClosesAt(s, n - 2) ==> n == |s| && forall i :: !ClosesAt(s, i)
  {
    if |s| < 2 then |s|
    else if ClosesAt(s, 0) then 2
    else
      assert forall i :: ClosesAt(s[1..], i) ==> ClosesAt(s, i + 1);
      assert forall i :: i >= 1 && ClosesAt(s, i) ==> ClosesAt(s[1..], i - 1);
      1 + BlockLength(s[1..])
  }

  function CommentLength(s: string): (n: nat)
    requires StartsComment(s)
    ensures 2 <= n <= |s|
  {
    2 + if s[1] == '/' then LineLength(s[2..]) else BlockLength(s[2..])
  }

  function FirstToken(s: string): (t: Token)
    requires s != ""
    ensures 0 < |t.Text()| <= |s| && t.Text() == s[..|t.Text()|]
    ensures t.Comment? <==> s[0] != '"' && StartsComment(s)
  {
    if s[0] == '"' then Literal(s[..1 + LiteralRest(s[1..], false)])
    else if StartsComment(s) then Comment(s[..CommentLength(s)])
    else Plain(s[0])
  }

  /** What follows the first token. */
  function Beyond(s: string): (rest: string)
    requires s != ""
    ensures |rest| < |s| && s == FirstToken(s).Text() + rest
  {
    s[|FirstToken(s).Text()|..]
  }

  function Lex(s: string): seq<Token>
    decreases |s|
  {
    if s == "" then [] else [FirstToken(s)] + Lex(Beyond(s))
  }

  function Join(ts: seq<Token>): string {
    if ts == [] then "" else ts[0].Text() + Join(ts[1..])
  }

  function Kept(ts: seq<Token>): seq<Token> {
    if ts == [] then []
    else if ts[0].Comment? then Kept(ts[1..]) else [ts[0]] + Kept(ts[1..])
  }

  function Literals(ts: seq<Token>): seq<string> {
    if ts == [] then []
    else if ts[0].Literal? then [ts[0].text] + Literals(ts[1..]) else Literals(ts[1..])
  }

  /** The lexer loses nothing. */
  lemma {:induction false} LexLossless(s: string)
    ensures Join(Lex(s)) == s
    decreases |s|
  {
    if s != "" {
      LexLossless(Beyond(s));
      assert Lex(s)[1..] == Lex(Beyond(s));
    }
  }

  /** The backslashes standing directly before `i`. */
  function BackslashRun(s: string, i: nat): nat
    requires i <= |s|
  {
    if i == 0 || s[i - 1] != '\\' then 0 else 1 + BackslashRun(s, i - 1)
  }

  /** A quote that an even number of backslashes precedes. */
  predicate ClosingQuote(s: string, i: int) {
    0 <= i < |s| && s[i] == '"' && BackslashRun(s, i) % 2 == 0
  }

  /** A literal runs through the first quote that an even number of backslashes precedes, or to the
      end of the text when there is none. */
  lemma LiteralClosesAtFirstQuote(s: string)
    ensures var n := LiteralRest(s, false);
      if exists i :: ClosingQuote(s, i)
      then ClosingQuote(s, n - 1) && forall i :: i < n - 1 ==> !ClosingQuote(s, i)
      else n == |s|
  {
    LiteralFrom(s, 0, false);
    assert s[0..] == s;
  }

  lemma {:induction false} LiteralFrom(s: string, at: nat, escape: bool)
    requires at <= |s| && (escape <==> BackslashRun(s, at) % 2 == 1)
    requires forall i :: i < at ==> !ClosingQuote(s, i)
    ensures var n := at + LiteralRest(s[at..], escape);
      if exists i :: ClosingQuote(s, i)
      then ClosingQuote(s, n - 1) && forall i :: i < n - 1 ==> !ClosingQuote(s, i)
      else n == |s|
    decreases |s| - at
  {
    if at < |s| && !ClosingQuote(s, at) {
      assert s[at..][1..] == s[at + 1..];
      LiteralFrom(s, at + 1, !escape && s[at] == '\\');
    }
  }

  // ------------------------------------------------------------------ the tokens in their places

  /** The text from token `k` on. */
  function From(s: string, k: nat): string
    requires k <= |Lex(s)|
  {
    Join(Lex(s)[k..])
  }

  lemma FromStep(s: string, k: nat)
    requires s != "" && k < |Lex(Beyond(s))| + 1
    ensures Lex(s)[k + 1..] == Lex(Beyond(s))[k..]
    ensures |Lex(s)| == |Lex(Beyond(s))| + 1
  {
    var ts := Lex(Beyond(s));
    assert Lex(s) == [FirstToken(s)] + ts;
    SliceTail(FirstToken(s), ts, k);
  }

  lemma SliceTail(t: Token, ts: seq<Token>, k: nat)
    requires k <= |ts|
    ensures ([t] + ts)[k + 1..] == ts[k..]
  {
  }

  lemma {:induction false} LexOfFrom(s: string, k: nat)
    requires k <= |Lex(s)|
    ensures Lex(From(s, k)) == Lex(s)[k..]
    decreases k
  {
    if k == 0 {
      LexLossless(s);
      assert Lex(s)[0..] == Lex(s);
    } else {
      FromStep(s, k - 1);
      LexOfFrom(Beyond(s), k - 1);
    }
  }

  lemma {:induction false} JoinAround(ts: seq<Token>, k: nat)
    requires k <= |ts|
    ensures Join(ts) == Join(ts[..k]) + Join(ts[k..])
  {
    if k == 0 {
      assert ts[0..] == ts;
    } else {
      JoinAround(ts[1..], k - 1);
      assert ts[1..][..k - 1] == ts[..k][1..] && ts[1..][k - 1..] == ts[k..];
    }
  }

  /** Lexing goes on in the same way from any token on. */
  lemma LexFrom(s: string, k: nat)
    requires k <= |Lex(s)|
    ensures Lex(From(s, k)) == Lex(s)[k..] && s == Join(Lex(s)[..k]) + From(s, k)
  {
    LexLossless(s);
    LexOfFrom(s, k);
    JoinAround(Lex(s), k);
  }

  lemma JoinCons(t: Token, ts: seq<Token>)
    ensures Join([t] + ts) == t.Text() + Join(ts)
  {
    assert ([t] + ts)[1..] == ts;
  }

  /** A token is the first one of the text from its place on. */
  lemma TokenAt(s: string, k: nat)
    requires k < |Lex(s)|
    ensures From(s, k) != "" && Lex(s)[k] == FirstToken(From(s, k))
    ensures From(s, k) == Lex(s)[k].Text() + From(s, k + 1)
  {
    LexFrom(s, k);
    assert Lex(s)[k..][0] == Lex(s)[k];
    assert Lex(s)[k..] == [Lex(s)[k]] + Lex(s)[k + 1..];
    JoinCons(Lex(s)[k], Lex(s)[k + 1..]);
  }

  /** A slash that no literal holds starts a comment exactly when a slash or a star follows. */
  lemma SlashStartsComment(s: string, k: nat)
    requires k < |Lex(s)| && "/" <= From(s, k)
    ensures Lex(s)[k].Comment? <==> "//" <= From(s, k) || "/*" <= From(s, k)
    ensures !Lex(s)[k].Comment? ==> Lex(s)[k] == Plain('/')
  {
    TokenAt(s, k);
  }

  /** Anywhere else a token is a literal, where there is a quote, or a single character. */
  lemma OtherTokens(s: string, k: nat)
    requires k < |Lex(s)| && From(s, k) != "" && From(s, k)[0] != '/'
    ensures if From(s, k)[0] == '"' then Lex(s)[k].Literal? else Lex(s)[k] == Plain(From(s, k)[0])
  {
    TokenAt(s, k);
  }

  /** A line comment holds no line end, and stops before one or at the end of the text. */
  lemma LineCommentEnds(s: string, k: nat)
    requires k < |Lex(s)| && Lex(s)[k].Comment? && "//" <= Lex(s)[k].text
    ensures '\r' !in Lex(s)[k].text && '\n' !in Lex(s)[k].text
    ensures From(s, k + 1) == "" || From(s, k + 1)[0] == '\r' || From(s, k + 1)[0] == '\n'
  {
    TokenAt(s, k);
    var r, n := From(s, k), |Lex(s)[k].text|;
    assert r[0] == '/' && r[1] == '/';
    assert forall i :: 2 <= i < n ==> r[i] == r[2..][i - 2];
    assert n < |r| ==> r[n] == r[2..][n - 2] == From(s, k + 1)[0];
  }

  /** The text has a star and a slash at `i` and the place after it. */
  predicate MarkAt(s: string, i: nat) {
    i + 1 < |s| && s[i] == '*' && s[i + 1] == '/'
  }

  /** A block comment runs through the first closing mark after its opening, or to the end of the text when there
      is none. */
  lemma BlockCommentEnds(s: string, k: nat)
    requires k < |Lex(s)| && Lex(s)[k].Comment? && !("//" <= Lex(s)[k].text)
    ensures var text, r := Lex(s)[k].text, From(s, k);
      && "/*" <= text <= r
      && (forall i: nat :: 2 <= i < |text| - 2 ==> !MarkAt(r, i))
      && ((|text| >= 4 && MarkAt(r, |text| - 2)) || (text == r && forall i: nat :: 2 <= i ==> !MarkAt(r, i)))
  {
    TokenAt(s, k);
    var r, text := From(s, k), Lex(s)[k].text;
    assert text[0] == r[0] && text[1] == r[1];
    forall i: nat | 2 <= i
      ensures MarkAt(r, i) <==> ClosesAt(r[2..], i - 2)
    {
    }
  }

  /** A string literal opens with a quote and runs through the first quote that an even number of backslashes
      precedes, or to the end of the text when there is none. */
  lemma LiteralEnds(s: string, k: nat)
    requires k < |Lex(s)| && Lex(s)[k].Literal?
    ensures var text, r := Lex(s)[k].text, From(s, k);
      && "\"" <= text <= r
      && (forall i :: i < |text| - 2 ==> !ClosingQuote(r[1..], i))
      && (ClosingQuote(r[1..], |text| - 2) || (text == r && forall i :: !ClosingQuote(r[1..], i)))
  {
    TokenAt(s, k);
    LiteralClosesAtFirstQuote(From(s, k)[1..]);
  }

  /** Of the tokens exactly the comments are dropped, each other one in its place. */
  lemma {:induction false} KeptAround(ts: seq<Token>, k: nat)
    requires k < |ts|
    ensures Kept(ts) == Kept(ts[..k]) + (if ts[k].Comment? then [] else [ts[k]]) + Kept(ts[k + 1..])
  {
    if k > 0 {
      KeptAround(ts[1..], k - 1);
      assert ts[1..][..k - 1] == ts[..k][1..] && ts[1..][k..] == ts[k + 1..];
    }
  }

  // ------------------------------------------------------------------ the two scanners

  /** What the scanner answers from a state on. */
  function Has(s: string, inString: bool, escape: bool): bool {
    if s == "" then false
    else if inString then
      Has(s[1..], escape || s[0] != '"', !escape && s[0] == '\\')
    else if s[0] == '"' then Has(s[1..], true, escape)
    else StartsComment(s) || Has(s[1..], false, escape)
  }

  lemma PassChar(content: string, i: nat, inString: bool, escape: bool)
    requires i < |content| && (escape ==> inString)
    requires inString || content[i] == '"' || !StartsComment(content[i..])
    ensures var c := content[i];
      Has(content[i..], inString, escape)
      == Has(content[i + 1..], if inString then escape || c != '"' else c == '"',
             inString && !escape && c == '\\')
  {
    assert content[i..][1..] == content[i + 1..];
  }

  method HasComments(content: string) returns (found: bool)
    ensures found <==> exists t :: t in Lex(content) && t.Comment?
  {
    HasMeaning(content);
    var inString, escape := false, false;
    var i := 0;
    while i < |content|
      invariant 0 <= i <= |content| && (escape ==> inString)
      invariant Has(content[i..], inString, escape) == Has(content, false, false)
    {
      var c := content[i];
      if inString {
        PassChar(content, i, inString, escape);
        if escape {
          escape := false;
        } else if c == '\\' {
          escape := true;
        } else if c == '"' {
          inString := false;
        }
        i := i + 1;
        continue;
      }
      if c == '"' {
        PassChar(content, i, inString, escape);
        inString := true;
        i := i + 1;
        continue;
      }
      if c == '/' && i + 1 < |content| {
        var next := content[i + 1];
        if next == '/' || next == '*' {
          assert StartsComment(content[i..]);
          return true;
        }
      }
      PassChar(content, i, inString, escape);
      i := i + 1;
    }
    return false;
  }

  /** What the stripper still produces from a state on. */
  function Strip(s: string, inString: bool, escape: bool): string
    decreases |s|
  {
    if s == "" then ""
    else if inString then
      [s[0]] + Strip(s[1..], escape || s[0] != '"', !escape && s[0] == '\\')
    else if s[0] == '"' then [s[0]] + Strip(s[1..], true, escape)
    else if StartsComment(s) then Strip(s[CommentLength(s)..], false, escape)
    else [s[0]] + Strip(s[1..], false, escape)
  }

  function Stripped(s: string): string {
    Strip(s, false, false)
  }

  method SkipLine(content: string, start: nat) returns (i: nat)
    requires start <= |content|
    ensures i == start + LineLength(content[start..])
  {
    i := start;
    while i < |content| && content[i] != '\r' && content[i] != '\n'
      invariant start <= i <= |content|
      invariant start + LineLength(content[start..]) == i + LineLength(content[i..])
    {
      assert content[i..][1..] == content[i + 1..];
      i := i + 1;
    }
  }

  /** The code steps two past the mark it found, which may be past the end of the text. */
  method SkipBlock(content: string, start: nat) returns (i: nat)
    requires start <= |content|
    ensures i >= start + BlockLength(content[start..])
    ensures i == start + BlockLength(content[start..]) || start + BlockLength(content[start..]) == |content|
  {
    i := start;
    while i + 1 < |content| && !(content[i] == '*' && content[i + 1] == '/')
      invariant start <= i <= |content|
      invariant start + BlockLength(content[start..]) == i + BlockLength(content[i..])
    {
      assert content[i..][1..] == content[i + 1..];
      i := i + 1;
    }
    i := i + 2;
  }

  /** What is still to come from position `i`, which a block comment may leave past the end. */
  function Left(content: string, i: nat, inString: bool, escape: bool): string {
    if i <= |content| then Strip(content[i..], inString, escape) else ""
  }

  /** The step over one character that is kept. */
  lemma KeepChar(content: string, i: nat, inString: bool, escape: bool, result: string)
    requires i < |content| && (escape ==> inString)
    requires inString || content[i] == '"' || !StartsComment(content[i..])
    ensures var c := content[i];
      var inString' := if inString then escape || c != '"' else c == '"';
      var escape' := inString && !escape && c == '\\';
      result + Left(content, i, inString, escape) == (result + [c]) + Left(content, i + 1, inString', escape')
  {
    assert content[i..][1..] == content[i + 1..];
    Shift(result, content[i], Left(content, i + 1,
      if inString then escape || content[i] != '"' else content[i] == '"',
      inString && !escape && content[i] == '\\'));
  }

  lemma DropComment(content: string, i: nat)
    requires i < |content| && StartsComment(content[i..])
    ensures Left(content, i, false, false) == Left(content, i + CommentLength(content[i..]), false, false)
    ensures content[i..][2..] == content[i + 2..]
  {
    var rest := content[i..];
    assert rest[CommentLength(rest)..] == content[i + CommentLength(rest)..];
  }

  /** The step over a comment, by one of the two inner loops. */
  method SkipComment(content: string, i: nat) returns (j: nat)
    requires i < |content| && StartsComment(content[i..])
    ensures j > i && Left(content, j, false, false) == Left(content, i, false, false)
  {
    DropComment(content, i);
    if content[i + 1] == '/' {
      j := SkipLine(content, i + 2);
    } else {
      j := SkipBlock(content, i + 2);
    }
  }

  method StripComments(content: string) returns (result: string)
    ensures result == Stripped(content)
  {
    result := "";
    var inString, escape := false, false;
    var i := 0;
    while i < |content|
      invariant 0 <= i && (escape ==> inString)
      invariant result + Left(content, i, inString, escape) == Stripped(content)
      decreases |content| - i
    {
      var c := content[i];
      if inString {
        KeepChar(content, i, inString, escape, result);
        result := result + [c];
        if escape {
          escape := false;
        } else if c == '\\' {
          escape := true;
        } else if c == '"' {
          inString := false;
        }
        i := i + 1;
        continue;
      }
      if c == '"' {
        KeepChar(content, i, inString, escape, result);
        inString := true;
        result := result + [c];
        i := i + 1;
        continue;
      }
      if c == '/' && i + 1 < |content| && (content[i + 1] == '/' || content[i + 1] == '*') {
        i := SkipComment(content, i);
        continue;
      }
      KeepChar(content, i, inString, escape, result);
      result := result + [c];
      i := i + 1;
    }
  }

  lemma Shift(a: string, c: char, b: string)
    ensures a + ([c] + b) == (a + [c]) + b
  {
  }

  // ------------------------------------------------------------------ scanning agrees with lexing

  lemma {:induction false} HasInLiteral(s: string, escape: bool)
    ensures Has(s, true, escape) == Has(s[LiteralRest(s, escape)..], false, false)
  {
    if s == "" {
    } else if !escape && s[0] == '"' {
    } else {
      var e := !escape && s[0] == '\\';
      HasInLiteral(s[1..], e);
      assert s[1..][LiteralRest(s[1..], e)..] == s[LiteralRest(s, escape)..];
    }
  }

  lemma {:induction false} HasMeaning(s: string)
    ensures Has(s, false, false) <==> exists t :: t in Lex(s) && t.Comment?
    decreases |s|
  {
    if s != "" {
      HasMeaning(Beyond(s));
      if s[0] == '"' {
        HasInLiteral(s[1..], false);
        assert s[1..][LiteralRest(s[1..], false)..] == Beyond(s);
      } else if StartsComment(s) {
        assert Lex(s)[0].Comment?;
      }
    }
  }

  lemma {:induction false} StripInLiteral(s: string, escape: bool)
    ensures Strip(s, true, escape)
         == s[..LiteralRest(s, escape)] + Stripped(s[LiteralRest(s, escape)..])
  {
    if s == "" {
    } else if !escape && s[0] == '"' {
      assert s[..1] == [s[0]];
    } else {
      var e := !escape && s[0] == '\\';
      var n := LiteralRest(s[1..], e);
      StripInLiteral(s[1..], e);
      SplitHead(s, n);
      assert Strip(s, true, escape) == [s[0]] + (s[1..][..n] + Stripped(s[n + 1..]));
    }
  }

  lemma SplitHead(s: string, n: nat)
    requires n < |s|
    ensures s[1..][n..] == s[n + 1..] && s[..n + 1] == [s[0]] + s[1..][..n]
    ensures forall t: string :: [s[0]] + (s[1..][..n] + t) == s[..n + 1] + t
  {
  }

  /** One step of the stripper, token by token. */
  lemma StripStep(s: string)
    requires s != ""
    ensures Stripped(s) == (if FirstToken(s).Comment? then "" else FirstToken(s).Text()) + Stripped(Beyond(s))
  {
    if s[0] == '"' {
      var n := LiteralRest(s[1..], false);
      StripInLiteral(s[1..], false);
      SplitHead(s, n);
      assert Beyond(s) == s[n + 1..] && FirstToken(s).Text() == s[..n + 1];
      assert Stripped(s) == [s[0]] + (s[1..][..n] + Stripped(Beyond(s)));
    } else if StartsComment(s) {
      assert Beyond(s) == s[CommentLength(s)..];
    } else {
      assert Beyond(s) == s[1..];
    }
  }

  /** A literal ends in the same place whatever follows it, unless it ran to the end of the text. */
  lemma {:induction false} LiteralStable(s: string, escape: bool, rest: string)
    ensures var n := LiteralRest(s, escape);
      n < |s| ==> LiteralRest(s[..n] + rest, escape) == n
  {
    if s != "" && (escape || s[0] != '"') {
      var e := !escape && s[0] == '\\';
      var n := LiteralRest(s[1..], e);
      if n < |s[1..]| {
        LiteralStable(s[1..], e, rest);
        assert (s[..n + 1] + rest)[1..] == s[1..][..n] + rest;
      }
    }
  }

  /** Lexing the stripped text gives back exactly the tokens that are not comments: removal never
      joins two characters into a comment start, and never opens or closes a string. */
  lemma {:induction false} StrippedTokens(s: string)
    ensures Lex(Stripped(s)) == Kept(Lex(s))
    decreases |s|
  {
    if s != "" {
      var t, out := FirstToken(s), Stripped(Beyond(s));
      StripStep(s);
      StrippedTokens(Beyond(s));
      assert Lex(s)[1..] == Lex(Beyond(s));
      if !t.Comment? {
        FirstTokenKept(s);
        assert Lex(t.Text() + out) == [t] + Lex(out);
      }
    }
  }

  lemma FirstTokenKept(s: string)
    requires s != "" && !FirstToken(s).Comment?
    ensures FirstToken(FirstToken(s).Text() + Stripped(Beyond(s))) == FirstToken(s)
    ensures Beyond(FirstToken(s).Text() + Stripped(Beyond(s))) == Stripped(Beyond(s))
  {
    var text, out := FirstToken(s).Text(), Stripped(Beyond(s));
    if s[0] == '"' {
      LiteralKept(s, out);
    } else {
      assert Beyond(s) == s[1..] && text + out == [s[0]] + out;
      PlainStaysPlain(s);
    }
    assert (text + out)[|text|..] == out;
  }

  lemma LiteralKept(s: string, out: string)
    requires s != "" && s[0] == '"' && (Beyond(s) == "" ==> out == "")
    ensures var again := FirstToken(s).Text() + out;
      again[0] == '"' && FirstToken(again) == FirstToken(s)
  {
    var n := LiteralRest(s[1..], false);
    var text := s[..n + 1];
    var again := text + out;
    if n < |s[1..]| {
      LiteralStable(s[1..], false, out);
      assert again[1..] == s[1..][..n] + out;
    } else {
      assert Beyond(s) == s[n + 1..];
      assert again == s;
    }
    assert again[..n + 1] == text;
  }

  lemma PlainStaysPlain(s: string)
    requires s != "" && s[0] != '"' && !StartsComment(s)
    ensures !StartsComment([s[0]] + Stripped(s[1..]))
  {
    if s[0] == '/' && |s| > 1 {
      assert s[1..][0] == s[1];
      assert !StartsComment(s[1..]);
      assert Stripped(s[1..])[0] == s[1];
    }
  }

  lemma {:induction false} KeptHasNoComments(ts: seq<Token>)
    ensures forall t :: t in Kept(ts) ==> !t.Comment?
    ensures Kept(Kept(ts)) == Kept(ts)
    ensures Literals(Kept(ts)) == Literals(ts)
    ensures Kept(ts) == ts <==> forall t :: t in ts ==> !t.Comment?
    ensures |Kept(ts)| <= |ts| && (Kept(ts) == ts <==> |Kept(ts)| == |ts|)
  {
    if ts != [] {
      KeptHasNoComments(ts[1..]);
      assert ts == [ts[0]] + ts[1..];
    }
  }

  /** Stripping is a fixpoint, and what it returns has no comment. */
  lemma StrippingIsFixpoint(s: string)
    ensures !Has(Stripped(s), false, false)
    ensures Stripped(Stripped(s)) == Stripped(s)
  {
    StrippedTokens(s);
    KeptHasNoComments(Lex(s));
    HasMeaning(Stripped(s));
    StrippedTokens(Stripped(s));
    LexLossless(Stripped(s));
    LexLossless(Stripped(Stripped(s)));
  }

  /** The scanner reports comments exactly when the stripper changes the text. */
  lemma ScannersAgree(s: string)
    ensures Has(s, false, false) <==> Stripped(s) != s
  {
    StrippedTokens(s);
    KeptHasNoComments(Lex(s));
    HasMeaning(s);
    LexLossless(s);
    LexLossless(Stripped(s));
  }

  /** Stripping keeps the string literals, escapes included, and joins exactly the other tokens. */
  lemma StrippingKeepsStrings(s: string)
    ensures Literals(Lex(Stripped(s))) == Literals(Lex(s))
    ensures Stripped(s) == Join(Kept(Lex(s)))
  {
    StrippedTokens(s);
    KeptHasNoComments(Lex(s));
    LexLossless(Stripped(s));
  }
}
