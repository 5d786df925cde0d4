/** Blanking comments and literals out of C text: an index-jumping scanner against a lexer
    that looks at one character at a time. */
module Comments {
  datatype State =
    | Code
    | Slash                  // a slash read and not yet written
    | Line
    | Block
    | Star                   // in a block comment, just after an asterisk
    | Quoted(quote: char)
    | Escaped(quote: char)

  predicate IsQuote(c: char) {
    c == '"' || c == '\''
  }

  /** The lexer: what it writes for `s` from a state.  A literal leaves one space. */
  function Lex(st: State, s: string): (out: string)
    decreases |s|, if st.Slash? then 1 else 0
  {
    if s == "" then (if st.Slash? then "/" else "")
    else
      var c, rest := s[0], s[1..];
      match st
      case Code =>
        if c == '/' then Lex(Slash, rest)
        else if IsQuote(c) then " " + Lex(Quoted(c), rest)
        else [c] + Lex(Code, rest)
      case Slash =>
        if c == '/' then Lex(Line, rest)
        else if c == '*' then Lex(Block, rest)
        else "/" + Lex(Code, s)
      case Line =>
        if c == '\n' then [c] + Lex(Code, rest) else Lex(Line, rest)
      case Block =>
        Lex(if c == '*' then Star else Block, rest)
      case Star =>
        Lex(if c == '/' then Code else if c == '*' then Star else Block, rest)
      case Quoted(q) =>
        Lex(if c == '\\' then Escaped(q) else if c == q then Code else Quoted(q), rest)
      case Escaped(q) =>
        Lex(Quoted(q), rest)
  }

  /** No quote, and no slash followed by a slash or an asterisk. */
  ghost predicate Clean(s: string) {
    && (forall i | 0 <= i < |s| :: !IsQuote(s[i]))
    && forall i, j | 0 <= i && j == i + 1 < |s| && s[i] == '/' :: s[j] != '/' && s[j] != '*'
  }

  lemma CleanCons(c: char, s: string)
    requires Clean(s) && !IsQuote(c) && (c == '/' && s != "" ==> s[0] != '/' && s[0] != '*')
    ensures Clean([c] + s)
  {
  }

  /** Text joined across a removed comment never opens a new one. */
  lemma {:induction false} LexIsClean(st: State, s: string)
    ensures Clean(Lex(st, s))
    decreases |s|, if st.Slash? then 1 else 0
  {
    if s != "" {
      var c, rest := s[0], s[1..];
      match st
      case Code =>
        if c == '/' {
          LexIsClean(Slash, rest);
        } else if IsQuote(c) {
          LexIsClean(Quoted(c), rest);
          CleanCons(' ', Lex(Quoted(c), rest));
        } else {
          LexIsClean(Code, rest);
          CleanCons(c, Lex(Code, rest));
        }
      case Slash =>
        if c == '/' {
          LexIsClean(Line, rest);
        } else if c == '*' {
          LexIsClean(Block, rest);
        } else {
          LexIsClean(Code, s);
          CleanCons('/', Lex(Code, s));
        }
      case Line =>
        if c == '\n' {
          LexIsClean(Code, rest);
          CleanCons(c, Lex(Code, rest));
        } else {
          LexIsClean(Line, rest);
        }
      case Block =>
        LexIsClean(if c == '*' then Star else Block, rest);
      case Star =>
        LexIsClean(if c == '/' then Code else if c == '*' then Star else Block, rest);
      case Quoted(q) =>
        LexIsClean(if c == '\\' then Escaped(q) else if c == q then Code else Quoted(q), rest);
      case Escaped(q) =>
        LexIsClean(Quoted(q), rest);
    }
  }

  /** A character that opens nothing is written. */
  lemma CodeStep(s: string)
    requires s != "" && !IsQuote(s[0]) && (s[0] == '/' && |s| > 1 ==> s[1] != '/' && s[1] != '*')
    ensures Lex(Code, s) == [s[0]] + Lex(Code, s[1..])
  {
  }

  lemma CleanTail(s: string)
    requires Clean(s) && s != ""
    ensures Clean(s[1..]) && !IsQuote(s[0]) && (s[0] == '/' && |s| > 1 ==> s[1] != '/' && s[1] != '*')
  {
    hide IsQuote;
    forall i, j | 0 <= i && j == i + 1 < |s[1..]| && s[1..][i] == '/'
      ensures s[1..][j] != '/' && s[1..][j] != '*'
    {
      assert s[i + 1] == s[1..][i] && s[j + 1] == s[1..][j];
    }
  }

  /** Clean text passes through. */
  lemma {:induction false} CleanIsKept(s: string)
    requires Clean(s)
    ensures Lex(Code, s) == s
  {
    if s != "" {
      CleanTail(s);
      CodeStep(s);
      CleanIsKept(s[1..]);
    }
  }

  /** Stripping twice is stripping once. */
  lemma StripIdempotent(s: string)
    ensures Lex(Code, Lex(Code, s)) == Lex(Code, s)
  {
    LexIsClean(Code, s);
    CleanIsKept(Lex(Code, s));
  }

  // --------------------------------------------------------- what each kind of text becomes

  /** Clean text that does not end in a slash is kept whole in front of anything. */
  lemma {:induction false} KeepsCode(a: string, rest: string)
    requires Clean(a) && (a != "" ==> a[|a| - 1] != '/')
    ensures Lex(Code, a + rest) == a + Lex(Code, rest)
  {
    hide Lex, Clean, IsQuote;
    if a == "" {
      assert a + rest == rest;
    } else {
      CleanTail(a);
      CodeStep(a + rest);
      KeepsCode(a[1..], rest);
      assert (a + rest)[1..] == a[1..] + rest;
      assert a == [a[0]] + a[1..];
    }
  }

  ghost predicate NoClose(body: string) {
    forall i, j | 0 <= i && j == i + 1 < |body| && body[i] == '*' :: body[j] != '/'
  }

  /** A block comment with no close inside is removed and leaves nothing. */
  lemma DropsBlock(body: string, rest: string)
    requires NoClose(body)
    ensures Lex(Code, "/*" + body + "*/" + rest) == Lex(Code, rest)
  {
    var t := "/*" + body + "*/" + rest;
    assert t[1..][1..] == body + "*/" + rest;
    InBlock(Block, body, rest);
  }

  lemma {:induction false} InBlock(st: State, body: string, rest: string)
    requires NoClose(body) && (st.Block? || (st.Star? && (body == "" || body[0] != '/')))
    ensures Lex(st, body + "*/" + rest) == Lex(Code, rest)
    decreases |body|
  {
    var t := body + "*/" + rest;
    if body == "" {
      assert t[1..] == "/" + rest;
      assert ("/" + rest)[1..] == rest;
    } else {
      var b := body[1..];
      assert t[1..] == b + "*/" + rest;
      assert NoClose(b) by {
        forall i, j | 0 <= i && j == i + 1 < |b| && b[i] == '*'
          ensures b[j] != '/'
        {
          assert body[i + 1] == b[i] && body[j + 1] == b[j];
        }
      }
      assert body[0] == '*' && b != "" ==> body[1] != '/';
      InBlock(if body[0] == '*' then Star else Block, b, rest);
    }
  }

  /** A line comment is removed up to its newline, which stays. */
  lemma DropsLine(body: string, rest: string)
    requires forall i | 0 <= i < |body| :: body[i] != '\n'
    ensures Lex(Code, "//" + body + "\n" + rest) == "\n" + Lex(Code, rest)
  {
    var t := "//" + body + "\n" + rest;
    assert t[1..][1..] == body + "\n" + rest;
    InLine(body, rest);
  }

  lemma {:induction false} InLine(body: string, rest: string)
    requires forall i | 0 <= i < |body| :: body[i] != '\n'
    ensures Lex(Line, body + "\n" + rest) == "\n" + Lex(Code, rest)
  {
    var t := body + "\n" + rest;
    if body == "" {
      assert t[1..] == rest;
    } else {
      assert t[1..] == body[1..] + "\n" + rest;
      InLine(body[1..], rest);
    }
  }

  /** What may stand inside a literal: no quote of its kind and no backslash, except that a
      backslash takes the next character with it, whatever that is. */
  ghost predicate LiteralBody(quote: char, body: string) {
    || body == ""
    || (body[0] == '\\' && |body| >= 2 && LiteralBody(quote, body[2..]))
    || (body[0] != '\\' && body[0] != quote && LiteralBody(quote, body[1..]))
  }

  /** A literal, escaped quotes and all, becomes one space. */
  lemma DropsLiteral(quote: char, body: string, rest: string)
    requires (quote == '"' || quote == '\'') && LiteralBody(quote, body)
    ensures Lex(Code, [quote] + body + [quote] + rest) == " " + Lex(Code, rest)
  {
    var t := [quote] + body + [quote] + rest;
    assert t[1..] == body + [quote] + rest;
    InLiteral(quote, body, rest);
  }

  lemma {:induction false} InLiteral(quote: char, body: string, rest: string)
    requires quote != '\\' && LiteralBody(quote, body)
    ensures Lex(Quoted(quote), body + [quote] + rest) == Lex(Code, rest)
    decreases |body|
  {
    var t := body + [quote] + rest;
    if body == "" {
      assert t[0] == quote && t[1..] == rest;
    } else if body[0] == '\\' {
      assert t[1..][1..] == body[2..] + [quote] + rest;
      InLiteral(quote, body[2..], rest);
    } else {
      assert t[1..] == body[1..] + [quote] + rest;
      InLiteral(quote, body[1..], rest);
    }
  }

  /** A literal that is never closed becomes one space too, with all that follows it. */
  lemma DropsOpenLiteral(quote: char, body: string)
    requires (quote == '"' || quote == '\'') && LiteralBody(quote, body)
    ensures Lex(Code, [quote] + body) == " " && Lex(Code, [quote] + body + "\\") == " "
  {
    assert ([quote] + body)[1..] == body && ([quote] + body + "\\")[1..] == body + "\\";
    InOpenLiteral(quote, body);
  }

  lemma {:induction false} InOpenLiteral(quote: char, body: string)
    requires LiteralBody(quote, body)
    ensures Lex(Quoted(quote), body) == "" && Lex(Quoted(quote), body + "\\") == ""
    decreases |body|
  {
    var t := body + "\\";
    if body == "" {
      assert t[1..] == "";
    } else if body[0] == '\\' {
      assert t[1..][1..] == body[2..] + "\\" && body[1..][1..] == body[2..];
      InOpenLiteral(quote, body[2..]);
    } else {
      assert t[1..] == body[1..] + "\\";
      InOpenLiteral(quote, body[1..]);
    }
  }

  /** A comment that is never closed is removed to the end of the text. */
  lemma DropsOpenComment(body: string)
    ensures NoClose(body) ==> Lex(Code, "/*" + body) == ""
    ensures (forall i | 0 <= i < |body| :: body[i] != '\n') ==> Lex(Code, "//" + body) == ""
  {
    assert ("/*" + body)[1..][1..] == body && ("//" + body)[1..][1..] == body;
    if NoClose(body) {
      InOpenBlock(Block, body);
    }
    if forall i | 0 <= i < |body| :: body[i] != '\n' {
      InOpenLine(body);
    }
  }

  lemma {:induction false} InOpenBlock(st: State, body: string)
    requires NoClose(body) && (st.Block? || (st.Star? && (body == "" || body[0] != '/')))
    ensures Lex(st, body) == ""
    decreases |body|
  {
    if body != "" {
      var b := body[1..];
      assert forall i, j | 0 <= i && j == i + 1 < |b| && b[i] == '*' :: body[i + 1] == b[i] && body[j + 1] == b[j];
      assert body[0] == '*' && b != "" ==> body[1] != '/';
      InOpenBlock(if body[0] == '*' then Star else Block, b);
    }
  }

  lemma {:induction false} InOpenLine(body: string)
    requires forall i | 0 <= i < |body| :: body[i] != '\n'
    ensures Lex(Line, body) == ""
  {
    if body != "" {
      InOpenLine(body[1..]);
    }
  }

  // ------------------------------------------------------------------------- the scanner

  lemma Head(text: string, i: nat)
    requires i < |text|
    ensures text[i..][0] == text[i] && text[i..][1..] == text[i + 1..]
  {
  }

  /** `strip_comments` writes what the lexer writes. */
  method StripComments(text: string) returns (out: string)
    ensures out == Lex(Code, text)
  {
    hide Lex;
    out := "";
    var i, n := 0, |text|;
    assert text[0..] == text;
    while i < n
      invariant 0 <= i <= n
      invariant out + Lex(Code, text[i..]) == Lex(Code, text)
      decreases n - i
    {
      var c := text[i];
      if IsQuote(c) {
        OpensLiteral(text, i);
        out := out + " ";
        i := SkipLiteral(text, i + 1, c);
        continue;
      }
      if c == '/' && i + 1 < n && text[i + 1] == '/' {
        i := SkipLine(text, i);
        continue;
      }
      if c == '/' && i + 1 < n && text[i + 1] == '*' {
        OpensBlock(text, i);
        i := SkipBlock(text, i + 2);
        continue;
      }
      PlainCode(text, i);
      out := out + [c];
      i := i + 1;
    }
    AtEnd(Code, text);
  }

  lemma AtEnd(st: State, text: string)
    requires !st.Slash?
    ensures text[|text|..] == "" && Lex(st, text[|text|..]) == ""
  {
  }

  lemma OpensLiteral(text: string, i: nat)
    requires i < |text| && IsQuote(text[i])
    ensures Lex(Code, text[i..]) == " " + Lex(Quoted(text[i]), text[i + 1..])
  {
    Head(text, i);
  }

  lemma OpensBlock(text: string, i: nat)
    requires i + 1 < |text| && text[i] == '/' && text[i + 1] == '*'
    ensures Lex(Code, text[i..]) == Lex(Block, text[i + 2..])
  {
    Head(text, i);
    Head(text, i + 1);
  }

  lemma OpensLine(text: string, i: nat)
    requires i + 1 < |text| && text[i] == '/' && text[i + 1] == '/'
    ensures Lex(Code, text[i..]) == Lex(Line, text[i..])
  {
    Head(text, i);
    Head(text, i + 1);
    Head(text, i);
    Head(text, i + 1);
    assert Lex(Line, text[i..]) == Lex(Line, text[i + 1..]) == Lex(Line, text[i + 2..]);
  }

  lemma PlainCode(text: string, i: nat)
    requires i < |text| && !IsQuote(text[i])
    requires text[i] == '/' && i + 1 < |text| ==> text[i + 1] != '/' && text[i + 1] != '*'
    ensures Lex(Code, text[i..]) == [text[i]] + Lex(Code, text[i + 1..])
  {
    Head(text, i);
    if i + 1 < |text| {
      Head(text, i + 1);
    }
  }

  /** Past a literal, or to the end of the text if it is not closed. */
  method SkipLiteral(text: string, from: nat, quote: char) returns (i: nat)
    requires from <= |text|
    ensures from <= i <= |text|
    ensures Lex(Quoted(quote), text[from..]) == Lex(Code, text[i..])
  {
    hide Lex;
    i := from;
    while i < |text|
      invariant from <= i <= |text| + 1
      invariant i <= |text| ==> Lex(Quoted(quote), text[from..]) == Lex(Quoted(quote), text[i..])
      invariant i > |text| ==> Lex(Quoted(quote), text[from..]) == ""
      decreases |text| + 1 - i
    {
      LiteralStep(text, i, quote);
      if text[i] == '\\' {
        i := i + 2;
        continue;
      }
      if text[i] == quote {
        i := i + 1;
        return;
      }
      i := i + 1;
    }
    AtEnd(Quoted(quote), text);
    AtEnd(Code, text);
    if i > |text| {
      i := |text|;
    }
  }

  lemma LiteralStep(text: string, i: nat, quote: char)
    requires i < |text|
    ensures text[i] == '\\' ==>
              Lex(Quoted(quote), text[i..]) == if i + 2 <= |text| then Lex(Quoted(quote), text[i + 2..]) else ""
    ensures text[i] != '\\' ==>
              Lex(Quoted(quote), text[i..]) == Lex(if text[i] == quote then Code else Quoted(quote), text[i + 1..])
  {
    Head(text, i);
    if i + 1 < |text| {
      Head(text, i + 1);
    }
  }

  /** To the newline that ends a line comment, or to the end of the text. */
  method SkipLine(text: string, from: nat) returns (i: nat)
    requires from + 1 < |text| && text[from] == '/' && text[from + 1] == '/'
    ensures from < i <= |text|
    ensures Lex(Code, text[from..]) == Lex(Code, text[i..])
  {
    OpensLine(text, from);
    hide Lex;
    i := from;
    while i < |text| && text[i] != '\n'
      invariant from <= i <= |text|
      invariant Lex(Line, text[from..]) == Lex(Line, text[i..])
    {
      LineStep(text, i);
      i := i + 1;
    }
    AtEnd(Line, text);
    AtEnd(Code, text);
    if i < |text| {
      LineStep(text, i);
    }
  }

  lemma LineStep(text: string, i: nat)
    requires i < |text|
    ensures text[i] != '\n' ==> Lex(Line, text[i..]) == Lex(Line, text[i + 1..])
    ensures text[i] == '\n' ==> Lex(Line, text[i..]) == Lex(Code, text[i..])
  {
    Head(text, i);
  }

  /** Past the close of a block comment, or to the end of the text if there is none. */
  method SkipBlock(text: string, from: nat) returns (i: nat)
    requires from <= |text|
    ensures from <= i <= |text|
    ensures Lex(Block, text[from..]) == Lex(Code, text[i..])
  {
    hide Lex;
    i := from;
    while i + 1 < |text| && !(text[i] == '*' && text[i + 1] == '/')
      invariant from <= i <= |text|
      invariant Lex(Block, text[from..]) == Lex(Block, text[i..])
      decreases |text| - i
    {
      BlockStep(text, i);
      i := i + 1;
    }
    BlockEnd(text, i);
    AtEnd(Code, text);
    i := if i + 2 <= |text| then i + 2 else |text|;
  }

  lemma BlockStep(text: string, i: nat)
    requires i + 1 < |text| && !(text[i] == '*' && text[i + 1] == '/')
    ensures Lex(Block, text[i..]) == Lex(Block, text[i + 1..])
  {
    Head(text, i);
    Head(text, i + 1);
  }

  lemma BlockEnd(text: string, i: nat)
    requires i <= |text| && (i + 1 < |text| ==> text[i] == '*' && text[i + 1] == '/')
    ensures Lex(Block, text[i..]) == if i + 2 <= |text| then Lex(Code, text[i + 2..]) else ""
  {
    if i < |text| {
      Head(text, i);
      if i + 1 < |text| {
        Head(text, i + 1);
      }
    }
  }
}
