/** Named parameters on top of positional ones (rsfbclient-core/src/params.rs). The regular
    expression `('[^']*')|:\w+` is a scanner that takes the leftmost match; which characters
    are word characters is a parameter. */
module NamedParams {
  import opened Wrappers

  type WordClass = char -> bool

  /** None of the characters that mean something in a statement is a word character. */
  predicate IsWordClass(word: WordClass) {
    !word('\'') && !word(':') && !word('?') && !word('"') && !word('-') && !word('/') && !word('*') && !word('\n')
  }

  // ---------------------------------------------------------------- the scanner

  /** `Skipped` is only for the server: it is what the client's scanner knows nothing of. */
  datatype Token = Quoted(text: string) | Param(name: string) | Plain(c: char) | Skipped(text: string)

  /** The position of the first quote, or the length. */
  function FindQuote(s: string): (k: nat)
    ensures k <= |s|
    ensures k < |s| ==> s[k] == '\''
    ensures forall i :: 0 <= i < k ==> s[i] != '\''
  {
    if s == "" || s[0] == '\'' then 0 else 1 + FindQuote(s[1..])
  }

  /** How many word characters the string starts with. */
  function WordLen(word: WordClass, s: string): (n: nat)
    ensures n <= |s|
    ensures forall i :: 0 <= i < n ==> word(s[i])
    ensures n < |s| ==> !word(s[n])
  {
    if s == "" || !word(s[0]) then 0 else 1 + WordLen(word, s[1..])
  }

  /** What is at the start of a string that is not empty: a quoted literal if it is closed, a
      parameter if it has a name, and otherwise the character itself. */
  function First(word: WordClass, s: string): (t: Token)
    requires s != ""
  {
    if s[0] == '\'' && FindQuote(s[1..]) < |s| - 1 then Quoted(s[..FindQuote(s[1..]) + 2])
    else if s[0] == ':' && WordLen(word, s[1..]) > 0 then Param(s[1..][..WordLen(word, s[1..])])
    else Plain(s[0])
  }

  function Text(t: Token): (s: string)
    ensures t.Quoted? || t.Skipped? ==> s == t.text
  {
    match t
    case Quoted(text) => text
    case Skipped(text) => text
    case Param(name) => ":" + name
    case Plain(c) => [c]
  }

  /** What the regular expression finds at the start of a string: from a quote, the text up to and
      with the next quote; and from a colon, the longest run of word characters behind it, if there
      is one. Everything else is a character. */
  lemma FirstMeans(word: WordClass, s: string)
    requires s != ""
    ensures var t := First(word, s);
            && !t.Skipped?
            && (t.Quoted? <==> s[0] == '\'' && exists k :: 0 < k < |s| && s[k] == '\'')
            && (t.Quoted? ==>
                  var k := |t.text| - 1;
                  0 < k < |s| && s[k] == '\'' && t.text == s[..k + 1] && forall i :: 0 < i < k ==> s[i] != '\'')
            && (t.Param? <==> s[0] == ':' && |s| > 1 && word(s[1]))
            && (t.Param? ==>
                  var n := |t.name|;
                  n < |s| && t.name == s[1..n + 1] && (forall i :: 0 < i <= n ==> word(s[i]))
                  && (n + 1 < |s| ==> !word(s[n + 1])))
            && (t.Plain? ==> t.c == s[0])
  {
    var rest := s[1..];
    assert forall i :: 0 < i < |s| ==> s[i] == rest[i - 1];
    var k := FindQuote(rest);
    if k < |rest| {
      assert s[k + 1] == '\'';
    }
    assert First(word, s).Param? ==> rest[..WordLen(word, rest)] == s[1..WordLen(word, rest) + 1];
  }

  lemma FirstIsPrefix(word: WordClass, s: string)
    requires s != ""
    ensures 0 < |Text(First(word, s))| <= |s| && Text(First(word, s)) == s[..|Text(First(word, s))|]
  {
    hide FindQuote, WordLen;
    if First(word, s).Param? {
      assert s == [':'] + s[1..];
    }
  }

  function Scan(word: WordClass, s: string): seq<Token>
    decreases |s|
  {
    if s == "" then []
    else
      FirstIsPrefix(word, s);
      [First(word, s)] + Scan(word, s[|Text(First(word, s))|..])
  }

  /** Taking a string apart and putting its tokens together again changes nothing. */
  function Join(tokens: seq<Token>): string {
    if tokens == [] then "" else Text(tokens[0]) + Join(tokens[1..])
  }

  lemma {:induction false} JoinOfScan(word: WordClass, s: string)
    ensures Join(Scan(word, s)) == s
    decreases |s|
  {
    if s != "" {
      FirstIsPrefix(word, s);
      JoinOfScan(word, s[|Text(First(word, s))|..]);
    }
  }

  // ---------------------------------------------------------------- parse

  function Rewritten(t: Token): (u: Token)
    ensures !u.Param?
  {
    if t.Param? then Plain('?') else t
  }

  function RewrittenAll(tokens: seq<Token>): (r: seq<Token>)
    ensures |r| == |tokens|
  {
    if tokens == [] then [] else [Rewritten(tokens[0])] + RewrittenAll(tokens[1..])
  }

  function Names(tokens: seq<Token>): seq<string> {
    if tokens == [] then []
    else (if tokens[0].Param? then [tokens[0].name] else []) + Names(tokens[1..])
  }

  datatype Parsed = Parsed(sql: string, names: seq<string>)

  function ParseSpec(word: WordClass, rawSql: string): Parsed {
    Parsed(Join(RewrittenAll(Scan(word, rawSql))), Names(Scan(word, rawSql)))
  }

  lemma ParseStep(word: WordClass, s: string)
    requires s != ""
    ensures var t := First(word, s);
            0 < |Text(t)| <= |s|
            && var rest := Scan(word, s[|Text(t)|..]);
               Join(RewrittenAll(Scan(word, s))) == Text(Rewritten(t)) + Join(RewrittenAll(rest))
               && Names(Scan(word, s)) == (if t.Param? then [t.name] else []) + Names(rest)
    ensures var t := First(word, s); Text(Rewritten(t)) == if t.Param? then "?" else Text(t)
  {
  }

  lemma NothingLeft(word: WordClass)
    ensures Join(RewrittenAll(Scan(word, ""))) == "" && Names(Scan(word, "")) == []
  {
  }

  /** `NamedParams::parse`: one pass replaces the parameters, another collects their names. */
  method Parse(word: WordClass, rawSql: string) returns (p: Parsed)
    ensures p == ParseSpec(word, rawSql)
  {
    hide First, Scan, Join, RewrittenAll, Names, Text, Rewritten;
    var sql: string, names: seq<string> := "", [];
    var left := rawSql;
    while left != ""
      invariant sql + Join(RewrittenAll(Scan(word, left))) == Join(RewrittenAll(Scan(word, rawSql)))
      decreases |left|
    {
      ParseStep(word, left);
      var t := First(word, left);
      ghost var rest := Join(RewrittenAll(Scan(word, left[|Text(t)|..])));
      assert sql + (Text(Rewritten(t)) + rest) == sql + Text(Rewritten(t)) + rest;
      sql := sql + (if t.Param? then "?" else Text(t));
      left := left[|Text(t)|..];
    }
    NothingLeft(word);
    assert sql + "" == sql;
    left := rawSql;
    while left != ""
      invariant names + Names(Scan(word, left)) == Names(Scan(word, rawSql))
      decreases |left|
    {
      ParseStep(word, left);
      var t := First(word, left);
      if t.Param? {
        names := names + [t.name];
      }
      left := left[|Text(t)|..];
    }
    assert names + [] == names;
    return Parsed(sql, names);
  }

  // ---------------------------------------------------------------- convert

  /** A parameter value. */
  type Value = nat

  datatype ParamsType = Positional(values: seq<Value>) | Named(byName: map<string, Value>)

  datatype ConvertError = ParamNotFound(name: string)

  /** `NamedParams::convert`: one value for each name, in order; the first name without a value
      is reported. */
  method Convert(names: seq<string>, params: ParamsType) returns (r: Result<seq<Value>, ConvertError>)
    ensures params.Positional? ==> r == Ok(params.values)
    ensures params.Named? ==>
              (r.Ok? <==> forall i :: 0 <= i < |names| ==> names[i] in params.byName)
    ensures params.Named? && r.Ok? ==>
              |r.value| == |names| && forall i :: 0 <= i < |names| ==> r.value[i] == params.byName[names[i]]
    ensures params.Named? && r.Err? ==>
              exists i :: 0 <= i < |names| && r.error == ParamNotFound(names[i]) && names[i] !in params.byName
                          && forall j :: 0 <= j < i ==> names[j] in params.byName
  {
    match params
    case Positional(values) => return Ok(values);
    case Named(byName) =>
      var newParams := [];
      for i := 0 to |names|
        invariant |newParams| == i
        invariant forall j :: 0 <= j < i ==> names[j] in byName && newParams[j] == byName[names[j]]
      {
        if names[i] !in byName {
          return Err(ParamNotFound(names[i]));
        }
        newParams := newParams + [byName[names[i]]];
      }
      return Ok(newParams);
  }

  // ---------------------------------------------------------------- scanning again

  predicate HasQuote(s: string) {
    FindQuote(s) < |s|
  }

  lemma {:induction false} QuotelessStays(word: WordClass, s: string)
    requires !HasQuote(s)
    ensures !HasQuote(Join(RewrittenAll(Scan(word, s))))
    decreases |s|
  {
    if s != "" {
      FirstIsPrefix(word, s);
      var t := First(word, s);
      var rest := s[|Text(t)|..];
      assert s[FindQuote(s)..] == "";
      forall i | 0 <= i < |rest| ensures rest[i] != '\'' {
        assert rest[i] == s[|Text(t)| + i];
      }
      QuotelessStays(word, rest);
      var r := Join(RewrittenAll(Scan(word, rest)));
      assert Join(RewrittenAll(Scan(word, s))) == Text(Rewritten(t)) + r;
      assert |Text(Rewritten(t))| == 1 && Text(Rewritten(t))[0] != '\'';
    }
  }

  /** The first token of the rewritten string, for any word class that has no more words. */
  lemma RewrittenFirst(word: WordClass, again: WordClass, s: string)
    requires s != "" && IsWordClass(word) && IsWordClass(again)
    requires forall c :: again(c) ==> word(c)
    ensures var r := Join(RewrittenAll(Scan(word, s)));
            r != "" && First(again, r) == Rewritten(First(word, s))
  {
    FirstIsPrefix(word, s);
    var t := First(word, s);
    var u := Rewritten(t);
    var rest := s[|Text(t)|..];
    var more := Join(RewrittenAll(Scan(word, rest)));
    var r := Text(u) + more;
    assert Join(RewrittenAll(Scan(word, s))) == r;
    match t
    case Quoted(text) => QuotedStays(s, more);
    case Param(_) =>
    case Plain(_) => PlainRewritten(word, again, s);
  }

  lemma PlainRewritten(word: WordClass, again: WordClass, s: string)
    requires s != "" && First(word, s) == Plain(s[0]) && IsWordClass(word)
    requires forall c :: again(c) ==> word(c)
    ensures First(again, [s[0]] + Join(RewrittenAll(Scan(word, s[1..])))) == Plain(s[0])
  {
    hide Scan, Join, RewrittenAll;
    var rest := s[1..];
    var more := Join(RewrittenAll(Scan(word, rest)));
    assert ([s[0]] + more)[1..] == more;
    if s[0] == '\'' {
      QuotelessStays(word, rest);
    } else if rest != "" {
      FirstCharacter(word, again, rest);
    } else {
      NothingLeft(word);
    }
  }

  /** What follows a lone colon is no word character, before and after rewriting. */
  lemma FirstCharacter(word: WordClass, again: WordClass, s: string)
    requires s != "" && IsWordClass(word)
    requires forall c :: again(c) ==> word(c)
    ensures var r := Join(RewrittenAll(Scan(word, s))); r != "" && (!word(s[0]) ==> !again(r[0]))
  {
    hide WordLen, FindQuote;
    ParseStep(word, s);
    FirstIsPrefix(word, s);
  }

  /** Scanning the rewritten statement finds the same literals and characters, with a question
      mark in the place of each parameter. */
  lemma {:induction false} ScanOfRewritten(word: WordClass, again: WordClass, s: string)
    requires IsWordClass(word) && IsWordClass(again)
    requires forall c :: again(c) ==> word(c)
    ensures Scan(again, Join(RewrittenAll(Scan(word, s)))) == RewrittenAll(Scan(word, s))
    decreases |s|
  {
    hide First, Text;
    if s != "" {
      FirstIsPrefix(word, s);
      var t := First(word, s);
      var rest := s[|Text(t)|..];
      var r := Join(RewrittenAll(Scan(word, s)));
      RewrittenFirst(word, again, s);
      assert r == Text(Rewritten(t)) + Join(RewrittenAll(Scan(word, rest)));
      FirstIsPrefix(again, r);
      assert r[|Text(Rewritten(t))|..] == Join(RewrittenAll(Scan(word, rest)));
      ScanOfRewritten(word, again, rest);
    }
  }

  lemma {:induction false} NoNamesLeft(tokens: seq<Token>)
    ensures Names(RewrittenAll(tokens)) == []
    ensures RewrittenAll(RewrittenAll(tokens)) == RewrittenAll(tokens)
  {
    if tokens != [] {
      NoNamesLeft(tokens[1..]);
    }
  }

  /** Parsing a second time changes nothing and finds no names. */
  lemma ParseIsIdempotent(word: WordClass, rawSql: string)
    requires IsWordClass(word)
    ensures ParseSpec(word, ParseSpec(word, rawSql).sql) == Parsed(ParseSpec(word, rawSql).sql, [])
  {
    ScanOfRewritten(word, word, rawSql);
    NoNamesLeft(Scan(word, rawSql));
  }

  // ---------------------------------------------------------------- meaning

  /** A statement with its values put in. */
  datatype Piece = Ch(c: char) | Val(v: Value)

  function Chars(s: string): (pieces: seq<Piece>)
    ensures |pieces| == |s|
  {
    seq(|s|, i requires 0 <= i < |s| => Ch(s[i]))
  }

  /** Each parameter replaced by the value of its name. */
  function ByName(tokens: seq<Token>, values: map<string, Value>): seq<Piece>
    requires forall i :: 0 <= i < |tokens| && tokens[i].Param? ==> tokens[i].name in values
  {
    if tokens == [] then []
    else
      (if tokens[0].Param? then [Val(values[tokens[0].name])] else Chars(Text(tokens[0])))
      + ByName(tokens[1..], values)
  }

  /** The question marks outside literals. */
  function Marks(tokens: seq<Token>): nat {
    if tokens == [] then 0 else (if tokens[0] == Plain('?') then 1 else 0) + Marks(tokens[1..])
  }

  /** What the server makes of a statement and a list of values: the values replace the question
      marks outside literals, from left to right. */
  function ByPosition(tokens: seq<Token>, values: seq<Value>): seq<Piece>
    requires Marks(tokens) == |values|
    decreases |tokens|
  {
    if tokens == [] then []
    else if tokens[0] == Plain('?') then [Val(values[0])] + ByPosition(tokens[1..], values[1..])
    else Chars(Text(tokens[0])) + ByPosition(tokens[1..], values)
  }

  function Lookup(names: seq<string>, values: map<string, Value>): (r: seq<Value>)
    requires forall i :: 0 <= i < |names| ==> names[i] in values
    ensures |r| == |names|
    ensures forall i :: 0 <= i < |names| ==> r[i] == values[names[i]]
  {
    if names == [] then [] else [values[names[0]]] + Lookup(names[1..], values)
  }

  lemma {:induction false} MarksOfRewritten(tokens: seq<Token>)
    ensures Marks(RewrittenAll(tokens)) == |Names(tokens)| + Marks(tokens)
  {
    if tokens != [] {
      MarksOfRewritten(tokens[1..]);
    }
  }

  lemma {:induction false} NamesAreCovered(tokens: seq<Token>, values: map<string, Value>)
    requires forall i :: 0 <= i < |Names(tokens)| ==> Names(tokens)[i] in values
    ensures forall i :: 0 <= i < |tokens| && tokens[i].Param? ==> tokens[i].name in values
  {
    if tokens != [] {
      var rest := Names(tokens[1..]);
      var first := if tokens[0].Param? then [tokens[0].name] else [];
      assert Names(tokens) == first + rest;
      forall i | 0 <= i < |rest| ensures rest[i] in values {
        assert rest[i] == Names(tokens)[|first| + i];
      }
      assert first != [] ==> Names(tokens)[0] == tokens[0].name;
      NamesAreCovered(tokens[1..], values);
      forall i | 0 <= i < |tokens| && tokens[i].Param? ensures tokens[i].name in values {
        assert i > 0 ==> tokens[i] == tokens[1..][i - 1];
      }
    }
  }

  lemma {:induction false} SubstitutionsAgree(tokens: seq<Token>, values: map<string, Value>)
    requires forall i :: 0 <= i < |Names(tokens)| ==> Names(tokens)[i] in values
    requires forall i :: 0 <= i < |tokens| && tokens[i].Param? ==> tokens[i].name in values
    requires Marks(tokens) == 0
    ensures Marks(RewrittenAll(tokens)) == |Names(tokens)|
    ensures ByPosition(RewrittenAll(tokens), Lookup(Names(tokens), values)) == ByName(tokens, values)
    decreases |tokens|
  {
    MarksOfRewritten(tokens);
    if tokens != [] {
      var rest := Names(tokens[1..]);
      var first := if tokens[0].Param? then [tokens[0].name] else [];
      assert Names(tokens) == first + rest;
      forall i | 0 <= i < |rest| ensures rest[i] in values {
        assert rest[i] == Names(tokens)[|first| + i];
      }
      SubstitutionsAgree(tokens[1..], values);
      var names := Names(tokens);
      if tokens[0].Param? {
        assert names[0] == tokens[0].name && names[1..] == rest;
        assert Lookup(names, values)[1..] == Lookup(rest, values);
      } else {
        assert names == rest;
      }
      assert RewrittenAll(tokens)[1..] == RewrittenAll(tokens[1..]);
    }
  }

  // ---------------------------------------------------------------- the server

  /** The position behind the first `mark`, or the end. */
  function Behind(s: string, mark: string): (k: nat)
    requires mark != ""
    ensures k <= |s|
    ensures s != "" ==> k > 0
  {
    if s == "" then 0 else if mark <= s then |mark| else 1 + Behind(s[1..], mark)
  }

  /** How much of a string the server skips over before it looks at single characters: a quoted
      identifier or a comment, and a literal that is not closed. What is not closed goes on to
      the end. */
  function SkippedLen(s: string): (n: nat)
    requires s != ""
    ensures n <= |s|
  {
    if s[0] == '\'' then if FindQuote(s[1..]) < |s| - 1 then 0 else |s|
    else if s[0] == '"' then 1 + Behind(s[1..], "\"")
    else if "--" <= s then 2 + Behind(s[2..], "\n")
    else if "/*" <= s then 2 + Behind(s[2..], "*/")
    else 0
  }

  /** What is at the start of a string for the server; otherwise it sees what the client should
      see. */
  function ServerFirst(word: WordClass, s: string): (t: Token)
    requires s != ""
  {
    if SkippedLen(s) > 0 then Skipped(s[..SkippedLen(s)]) else First(word, s)
  }

  lemma ServerFirstIsPrefix(word: WordClass, s: string)
    requires s != ""
    ensures 0 < |Text(ServerFirst(word, s))| <= |s|
    ensures Text(ServerFirst(word, s)) == s[..|Text(ServerFirst(word, s))|]
  {
    hide SkippedLen, First;
    FirstIsPrefix(word, s);
  }

  function ServerScan(word: WordClass, s: string): seq<Token>
    decreases |s|
  {
    if s == "" then []
    else
      ServerFirstIsPrefix(word, s);
      [ServerFirst(word, s)] + ServerScan(word, s[|Text(ServerFirst(word, s))|..])
  }

  lemma {:induction false} JoinOfServerScan(word: WordClass, s: string)
    ensures Join(ServerScan(word, s)) == s
    decreases |s|
  {
    if s != "" {
      ServerFirstIsPrefix(word, s);
      JoinOfServerScan(word, s[|Text(ServerFirst(word, s))|..]);
    }
  }

  /** The tokens of a statement without names. */
  function ServerTokens(sql: string): seq<Token> {
    ServerScan(_ => false, sql)
  }

  /** What `parse` would give if the client knew identifiers and comments. */
  function ServerParse(word: WordClass, rawSql: string): Parsed {
    Parsed(Join(RewrittenAll(ServerScan(word, rawSql))), Names(ServerScan(word, rawSql)))
  }

  lemma {:induction false} BehindIsFound(s: string, mark: string)
    requires mark != "" && Behind(s, mark) < |s|
    ensures |mark| <= Behind(s, mark)
  {
    if !(mark <= s) {
      BehindIsFound(s[1..], mark);
    }
  }

  /** What follows a closing mark does not matter. */
  lemma {:induction false} BehindStays(s: string, mark: string, more: string)
    requires mark != "" && Behind(s, mark) < |s|
    ensures Behind(s[..Behind(s, mark)] + more, mark) == Behind(s, mark)
  {
    var k := Behind(s, mark);
    BehindIsFound(s, mark);
    var r := s[..k] + more;
    assert r[..|mark|] == s[..|mark|];
    if !(mark <= s) {
      BehindStays(s[1..], mark, more);
      assert r[1..] == s[1..][..k - 1] + more;
    }
  }

  /** The first character of a rewritten string. */
  lemma RewrittenStart(word: WordClass, s: string)
    requires s != ""
    ensures var r := Join(RewrittenAll(ServerScan(word, s)));
            && r != "" && r[0] == (if ServerFirst(word, s).Param? then '?' else s[0])
            && (ServerFirst(word, s).Param? ==> s[0] == ':')
  {
    ServerFirstIsPrefix(word, s);
    var t := ServerFirst(word, s);
    var more := Join(RewrittenAll(ServerScan(word, s[|Text(t)|..])));
    assert Join(RewrittenAll(ServerScan(word, s))) == Text(Rewritten(t)) + more;
  }

  lemma RewrittenServerFirst(word: WordClass, again: WordClass, s: string)
    requires s != "" && IsWordClass(word) && IsWordClass(again)
    requires forall c :: again(c) ==> word(c)
    ensures var r := Join(RewrittenAll(ServerScan(word, s)));
            r != "" && ServerFirst(again, r) == Rewritten(ServerFirst(word, s))
  {
    hide SkippedLen, First;
    ServerFirstIsPrefix(word, s);
    var t := ServerFirst(word, s);
    var rest := s[|Text(t)|..];
    var more := Join(RewrittenAll(ServerScan(word, rest)));
    var r := Text(Rewritten(t)) + more;
    assert Join(RewrittenAll(ServerScan(word, s))) == r;
    if SkippedLen(s) == |s| {
      assert more == "" && r == s;
    } else if SkippedLen(s) > 0 {
      SkippedStays(s, more);
    } else {
      if rest != "" {
        RewrittenStart(word, rest);
      } else {
        assert more == "";
      }
      UnskippedStays(word, again, s, more);
    }
  }

  /** What was closed is closed at the same place, whatever follows. */
  lemma SkippedStays(s: string, more: string)
    requires s != "" && 0 < SkippedLen(s) < |s|
    ensures var text := s[..SkippedLen(s)];
            && SkippedLen(text + more) == |text| && (text + more)[..|text|] == text
  {
    var r := s[..SkippedLen(s)] + more;
    StartsWithTwo(r);
    StartsWithTwo(s);
    if s[0] == '"' {
      MarkStays(s, 1, "\"", more);
    } else {
      MarkStays(s, 2, if "--" <= s then "\n" else "*/", more);
    }
  }

  lemma MarkStays(s: string, start: nat, mark: string, more: string)
    requires mark != "" && start <= |s| && Behind(s[start..], mark) < |s| - start
    ensures Behind((s[..start + Behind(s[start..], mark)] + more)[start..], mark) == Behind(s[start..], mark)
  {
    var k := Behind(s[start..], mark);
    BehindStays(s[start..], mark, more);
    assert (s[..start + k] + more)[start..] == s[start..][..k] + more;
  }

  /** And what was not skipped is not skipped after rewriting. */
  lemma UnskippedStays(word: WordClass, again: WordClass, s: string, more: string)
    requires s != "" && SkippedLen(s) == 0 && IsWordClass(word)
    requires forall c :: again(c) ==> word(c)
    requires var rest := s[|Text(First(word, s))|..];
             if rest == "" then more == ""
             else more != "" && (more[0] == rest[0] || (more[0] == '?' && rest[0] == ':'))
    ensures var r := Text(Rewritten(First(word, s))) + more;
            r != "" && SkippedLen(r) == 0 && First(again, r) == Rewritten(First(word, s))
  {
    var t := First(word, s);
    var r := Text(Rewritten(t)) + more;
    match t
    case Quoted(text) => QuotedStays(s, more);
    case Param(_) =>
      assert r[0] == '?' && !("--" <= r) && !("/*" <= r);
    case Plain(c) =>
      assert r == [s[0]] + more && s == [s[0]] + s[1..];
      PlainStays(word, again, s[0], s[1..], more);
  }

  lemma PlainStays(word: WordClass, again: WordClass, c: char, rest: string, more: string)
    requires SkippedLen([c] + rest) == 0 && First(word, [c] + rest) == Plain(c) && IsWordClass(word)
    requires forall d :: again(d) ==> word(d)
    requires if rest == "" then more == ""
             else more != "" && (more[0] == rest[0] || (more[0] == '?' && rest[0] == ':'))
    ensures SkippedLen([c] + more) == 0 && First(again, [c] + more) == Plain(c)
  {
    assert ([c] + rest)[1..] == rest && ([c] + more)[1..] == more;
    StartsWithTwo([c] + rest);
    StartsWithTwo([c] + more);
  }

  lemma StartsWithTwo(s: string)
    ensures "--" <= s <==> |s| >= 2 && s[0] == '-' && s[1] == '-'
    ensures "/*" <= s <==> |s| >= 2 && s[0] == '/' && s[1] == '*'
    ensures |s| >= 2 ==> s[1] == s[1..][0]
  {
  }

  lemma QuotedStays(s: string, more: string)
    requires s != "" && s[0] == '\'' && FindQuote(s[1..]) < |s| - 1
    ensures var text := s[..FindQuote(s[1..]) + 2];
            FindQuote((text + more)[1..]) == FindQuote(s[1..]) && (text + more)[..|text|] == text
  {
    var k := FindQuote(s[1..]);
    var r := s[..k + 2] + more;
    assert r[1..][k] == '\'';
    forall i | 0 <= i < k ensures r[1..][i] != '\'' {
      assert r[1..][i] == s[1..][i];
    }
  }

  /** To the server, the rewritten statement has the tokens of the original, with a question
      mark in the place of each parameter. */
  lemma {:induction false} ServerScanOfRewritten(word: WordClass, again: WordClass, s: string)
    requires IsWordClass(word) && IsWordClass(again)
    requires forall c :: again(c) ==> word(c)
    ensures ServerScan(again, Join(RewrittenAll(ServerScan(word, s)))) == RewrittenAll(ServerScan(word, s))
    decreases |s|
  {
    hide ServerFirst, Text;
    if s != "" {
      ServerFirstIsPrefix(word, s);
      var t := ServerFirst(word, s);
      var rest := s[|Text(t)|..];
      var r := Join(RewrittenAll(ServerScan(word, s)));
      RewrittenServerFirst(word, again, s);
      assert r == Text(Rewritten(t)) + Join(RewrittenAll(ServerScan(word, rest)));
      ServerFirstIsPrefix(again, r);
      assert r[|Text(Rewritten(t))|..] == Join(RewrittenAll(ServerScan(word, rest)));
      ServerScanOfRewritten(word, again, rest);
    }
  }

  // ---------------------------------------------------------------- when meaning is preserved

  /** All names the client or the server sees have values. */
  ghost predicate Covered(word: WordClass, rawSql: string, values: map<string, Value>) {
    (forall i :: 0 <= i < |ParseSpec(word, rawSql).names| ==> ParseSpec(word, rawSql).names[i] in values)
    && (forall i :: 0 <= i < |ServerParse(word, rawSql).names| ==> ServerParse(word, rawSql).names[i] in values)
  }

  /** The server gets as many values as it has places for, and makes the same of the rewritten
      statement as of the original with every parameter replaced by its value. */
  ghost predicate Preserves(word: WordClass, rawSql: string, values: map<string, Value>)
    requires Covered(word, rawSql, values)
  {
    assert ServerParse(word, rawSql).names == Names(ServerScan(word, rawSql));
    NamesAreCovered(ServerScan(word, rawSql), values);
    var p := ParseSpec(word, rawSql);
    Marks(ServerTokens(p.sql)) == |p.names|
    && ByPosition(ServerTokens(p.sql), Lookup(p.names, values)) == ByName(ServerScan(word, rawSql), values)
  }

  /** The statement the pieces come from, with a question mark for each value. */
  function Template(pieces: seq<Piece>): string {
    if pieces == [] then ""
    else [if pieces[0].Ch? then pieces[0].c else '?'] + Template(pieces[1..])
  }

  function Vals(pieces: seq<Piece>): seq<Value> {
    if pieces == [] then []
    else (if pieces[0].Val? then [pieces[0].v] else []) + Vals(pieces[1..])
  }

  lemma PiecesConcat(a: seq<Piece>, b: seq<Piece>)
    ensures Template(a + b) == Template(a) + Template(b) && Vals(a + b) == Vals(a) + Vals(b)
  {
    TemplateConcat(a, b);
    ValsConcat(a, b);
  }

  lemma {:induction false} TemplateConcat(a: seq<Piece>, b: seq<Piece>)
    ensures Template(a + b) == Template(a) + Template(b)
  {
    if a == [] {
      assert a + b == b;
    } else {
      assert (a + b)[1..] == a[1..] + b;
      TemplateConcat(a[1..], b);
    }
  }

  lemma {:induction false} ValsConcat(a: seq<Piece>, b: seq<Piece>)
    ensures Vals(a + b) == Vals(a) + Vals(b)
  {
    if a == [] {
      assert a + b == b;
    } else {
      assert (a + b)[1..] == a[1..] + b;
      ValsConcat(a[1..], b);
      var first := if a[0].Val? then [a[0].v] else [];
      assert Vals(a) == first + Vals(a[1..]);
      assert Vals(a + b) == first + (Vals(a[1..]) + Vals(b));
    }
  }

  lemma {:induction false} PiecesOfChars(s: string)
    ensures Template(Chars(s)) == s && Vals(Chars(s)) == []
  {
    if s != "" {
      PiecesOfChars(s[1..]);
      assert Chars(s)[1..] == Chars(s[1..]);
    }
  }

  lemma PiecesOfValue(v: Value)
    ensures Template([Val(v)]) == "?" && Vals([Val(v)]) == [v]
  {
    assert [Val(v)][1..] == [];
  }

  lemma {:induction false} PiecesByPosition(tokens: seq<Token>, values: seq<Value>)
    requires Marks(tokens) == |values|
    ensures Template(ByPosition(tokens, values)) == Join(tokens) && Vals(ByPosition(tokens, values)) == values
    decreases |tokens|
  {
    hide Template, Vals, Chars;
    if tokens == [] {
      PiecesOfChars("");
      assert ByPosition(tokens, values) == Chars("");
    } else if tokens[0] == Plain('?') {
      PiecesByPosition(tokens[1..], values[1..]);
      PiecesOfValue(values[0]);
      PiecesConcat([Val(values[0])], ByPosition(tokens[1..], values[1..]));
    } else {
      PiecesByPosition(tokens[1..], values);
      PiecesOfChars(Text(tokens[0]));
      PiecesConcat(Chars(Text(tokens[0])), ByPosition(tokens[1..], values));
    }
  }

  lemma {:induction false} PiecesByName(tokens: seq<Token>, values: map<string, Value>)
    requires forall i :: 0 <= i < |tokens| && tokens[i].Param? ==> tokens[i].name in values
    requires forall i :: 0 <= i < |Names(tokens)| ==> Names(tokens)[i] in values
    ensures Template(ByName(tokens, values)) == Join(RewrittenAll(tokens))
    ensures Vals(ByName(tokens, values)) == Lookup(Names(tokens), values)
    decreases |tokens|
  {
    hide Template, Vals, Chars;
    if tokens == [] {
      PiecesOfChars("");
      assert ByName(tokens, values) == Chars("");
    } else {
      var rest := Names(tokens[1..]);
      var first := if tokens[0].Param? then [tokens[0].name] else [];
      assert Names(tokens) == first + rest;
      forall i | 0 <= i < |rest| ensures rest[i] in values {
        assert rest[i] == Names(tokens)[|first| + i];
      }
      PiecesByName(tokens[1..], values);
      if tokens[0].Param? {
        PiecesOfValue(values[tokens[0].name]);
        PiecesConcat([Val(values[tokens[0].name])], ByName(tokens[1..], values));
        assert Names(tokens)[0] == tokens[0].name && Names(tokens)[1..] == rest;
      } else {
        PiecesOfChars(Text(tokens[0]));
        PiecesConcat(Chars(Text(tokens[0])), ByName(tokens[1..], values));
        assert Names(tokens) == rest;
      }
    }
  }

  /** Rewriting preserves meaning exactly when the client rewrites the statement as a scanner
      would that knows identifiers and comments, with the same values in the same order, and the
      original has no question mark of its own for the server to fill. */
  lemma SameRewritingIff(word: WordClass, rawSql: string, values: map<string, Value>)
    requires IsWordClass(word) && Covered(word, rawSql, values)
    ensures Preserves(word, rawSql, values) <==>
              var p, q := ParseSpec(word, rawSql), ServerParse(word, rawSql);
              && p.sql == q.sql
              && Lookup(p.names, values) == Lookup(q.names, values)
              && Marks(ServerScan(word, rawSql)) == 0
  {
    hide Scan, ServerScan, ByPosition, ByName, Lookup, Join, RewrittenAll, Names, Marks;
    var tokens := ServerScan(word, rawSql);
    var p, q := ParseSpec(word, rawSql), ServerParse(word, rawSql);
    NamesAreCovered(tokens, values);
    ServerScanOfRewritten(word, _ => false, rawSql);
    MarksOfRewritten(tokens);
    PiecesByName(tokens, values);
    JoinOfServerScan(_ => false, p.sql);
    if Marks(ServerTokens(p.sql)) == |p.names| {
      PiecesByPosition(ServerTokens(p.sql), Lookup(p.names, values));
    }
    if p.sql == q.sql && Lookup(p.names, values) == Lookup(q.names, values) && Marks(tokens) == 0 {
      SubstitutionsAgree(tokens, values);
      assert |p.names| == |Lookup(p.names, values)| == |q.names|;
    }
  }

  // ---------------------------------------------------------------- where the parameters are

  /** The offsets at which parameters start. */
  function Places(tokens: seq<Token>, at: nat): seq<nat> {
    if tokens == [] then []
    else (if tokens[0].Param? then [at] else []) + Places(tokens[1..], at + |Text(tokens[0])|)
  }

  /** The tokens are those of a string, and each parameter has its whole name. */
  predicate Describes(word: WordClass, tokens: seq<Token>, s: string)
    decreases |tokens|
  {
    if tokens == [] then s == ""
    else
      var n := |Text(tokens[0])|;
      0 < n <= |s| && Text(tokens[0]) == s[..n]
      && (tokens[0].Param? ==> |tokens[0].name| == WordLen(word, s[1..]))
      && Describes(word, tokens[1..], s[n..])
  }

  lemma {:induction false} ScanDescribes(word: WordClass, s: string)
    ensures Describes(word, Scan(word, s), s)
    decreases |s|
  {
    hide WordLen, FindQuote;
    if s != "" {
      FirstIsPrefix(word, s);
      ScanDescribes(word, s[|Text(First(word, s))|..]);
    }
  }

  lemma {:induction false} ServerScanDescribes(word: WordClass, s: string)
    ensures Describes(word, ServerScan(word, s), s)
    decreases |s|
  {
    hide WordLen, FindQuote, SkippedLen;
    if s != "" {
      ServerFirstIsPrefix(word, s);
      ServerScanDescribes(word, s[|Text(ServerFirst(word, s))|..]);
    }
  }

  /** Everything but the parameters, character by character. */
  function Plains(s: string): seq<Token> {
    if s == "" then [] else [Plain(s[0])] + Plains(s[1..])
  }

  function Flat(tokens: seq<Token>): seq<Token> {
    if tokens == [] then []
    else (if tokens[0].Param? then [tokens[0]] else Plains(Text(tokens[0]))) + Flat(tokens[1..])
  }

  predicate IsFlat(tokens: seq<Token>) {
    forall i :: 0 <= i < |tokens| ==> tokens[i].Param? || tokens[i].Plain?
  }

  function Rewriting(tokens: seq<Token>): string {
    Join(RewrittenAll(tokens))
  }

  /** What the first token contributes. */
  lemma Head(word: WordClass, tokens: seq<Token>, s: string, at: nat)
    requires tokens != []
    ensures Rewriting(tokens) == Text(Rewritten(tokens[0])) + Rewriting(tokens[1..])
    ensures Names(tokens) == (if tokens[0].Param? then [tokens[0].name] else []) + Names(tokens[1..])
    ensures Places(tokens, at) == (if tokens[0].Param? then [at] else []) + Places(tokens[1..], at + |Text(tokens[0])|)
    ensures Describes(word, tokens, s) <==>
              var n := |Text(tokens[0])|;
              0 < n <= |s| && Text(tokens[0]) == s[..n]
              && (tokens[0].Param? ==> |tokens[0].name| == WordLen(word, s[1..]))
              && Describes(word, tokens[1..], s[n..])
  {
    hide Text;
  }

  lemma PlainBefore(word: WordClass, c: char, tokens: seq<Token>, rest: string, at: nat)
    requires IsFlat(tokens) && Describes(word, tokens, rest)
    ensures IsFlat([Plain(c)] + tokens) && Describes(word, [Plain(c)] + tokens, [c] + rest)
    ensures Rewriting([Plain(c)] + tokens) == [c] + Rewriting(tokens)
    ensures Names([Plain(c)] + tokens) == Names(tokens)
    ensures Places([Plain(c)] + tokens, at) == Places(tokens, at + 1)
  {
    hide WordLen, Rewriting, Names, Places, Describes;
    var all := [Plain(c)] + tokens;
    assert all[0] == Plain(c) && all[1..] == tokens;
    assert ([c] + rest)[..1] == [c] && ([c] + rest)[1..] == rest;
    Head(word, all, [c] + rest, at);
  }

  lemma {:induction false} PlainsBefore(word: WordClass, text: string, tokens: seq<Token>, rest: string, at: nat)
    requires IsFlat(tokens) && Describes(word, tokens, rest)
    ensures IsFlat(Plains(text) + tokens) && Describes(word, Plains(text) + tokens, text + rest)
    ensures Rewriting(Plains(text) + tokens) == text + Rewriting(tokens)
    ensures Names(Plains(text) + tokens) == Names(tokens)
    ensures Places(Plains(text) + tokens, at) == Places(tokens, at + |text|)
    decreases |text|
  {
    hide WordLen, Rewriting, Names, Places, Describes, IsFlat;
    if text == "" {
      assert Plains(text) + tokens == tokens && text + rest == rest;
      assert "" + Rewriting(tokens) == Rewriting(tokens);
    } else {
      var more := Plains(text[1..]) + tokens;
      PlainsBefore(word, text[1..], tokens, rest, at + 1);
      PlainBefore(word, text[0], more, text[1..] + rest, at);
      assert Plains(text) + tokens == [Plain(text[0])] + more;
      assert text + rest == [text[0]] + (text[1..] + rest);
      assert text + Rewriting(tokens) == [text[0]] + (text[1..] + Rewriting(tokens));
    }
  }

  lemma DescribesEmpty(word: WordClass, tokens: seq<Token>, s: string)
    requires Describes(word, tokens, s)
    ensures tokens == [] <==> s == ""
  {
    hide WordLen;
  }

  lemma {:induction false} FlatIsTheSame(word: WordClass, tokens: seq<Token>, s: string, at: nat)
    requires Describes(word, tokens, s)
    ensures IsFlat(Flat(tokens)) && Describes(word, Flat(tokens), s)
    ensures Rewriting(Flat(tokens)) == Rewriting(tokens)
    ensures Names(Flat(tokens)) == Names(tokens) && Places(Flat(tokens), at) == Places(tokens, at)
    decreases |tokens|
  {
    hide WordLen, Rewriting, Names, Places, Describes, Plains, Text;
    if tokens != [] {
      Head(word, tokens, s, at);
      var t, rest := tokens[0], s[|Text(tokens[0])|..];
      FlatIsTheSame(word, tokens[1..], rest, at + |Text(t)|);
      if t.Param? {
        var flat := Flat(tokens);
        assert flat[0] == t && flat[1..] == Flat(tokens[1..]);
        Head(word, flat, s, at);
      } else {
        PlainsBefore(word, Text(t), Flat(tokens[1..]), rest, at);
        assert s == Text(t) + rest;
      }
    }
  }

  lemma {:induction false} PlacesComeLater(tokens: seq<Token>, at: nat)
    ensures forall i :: 0 <= i < |Places(tokens, at)| ==> Places(tokens, at)[i] >= at
    decreases |tokens|
  {
    hide Text;
    if tokens != [] {
      PlacesComeLater(tokens[1..], at + |Text(tokens[0])|);
    }
  }

  /** Two rewritings of one string are equal exactly when they rewrite at the same offsets, and
      then the names are the same. */
  lemma {:induction false} FlatRewritings(word: WordClass, a: seq<Token>, b: seq<Token>, s: string, at: nat)
    requires IsFlat(a) && IsFlat(b) && Describes(word, a, s) && Describes(word, b, s)
    ensures Rewriting(a) == Rewriting(b) <==> Places(a, at) == Places(b, at)
    ensures Places(a, at) == Places(b, at) ==> Names(a) == Names(b)
    decreases |s|
  {
    hide WordLen, Rewriting, Names, Places, Describes, Text, Rewritten;
    DescribesEmpty(word, a, s);
    DescribesEmpty(word, b, s);
    if s != "" {
      Head(word, a, s, at);
      Head(word, b, s, at);
      if a[0].Param? == b[0].Param? {
        SameFirst(word, a[0], b[0], s);
        var n := |Text(a[0])|;
        FlatRewritings(word, a[1..], b[1..], s[n..], at + n);
        CancelPrefix(Text(Rewritten(a[0])), Rewriting(a[1..]), Rewriting(b[1..]));
        CancelPrefix(if a[0].Param? then [at] else [], Places(a[1..], at + n), Places(b[1..], at + n));
      } else if a[0].Param? {
        FirstDiffers(word, a, b, s, at);
      } else {
        FirstDiffers(word, b, a, s, at);
      }
    }
  }

  lemma CancelPrefix<T>(first: seq<T>, a: seq<T>, b: seq<T>)
    ensures first + a == first + b <==> a == b
  {
    assert (first + a)[|first|..] == a && (first + b)[|first|..] == b;
  }

  lemma SameFirst(word: WordClass, a: Token, b: Token, s: string)
    requires a.Param? == b.Param? && (a.Param? || a.Plain?) && (b.Param? || b.Plain?)
    requires 0 < |Text(a)| <= |s| && Text(a) == s[..|Text(a)|]
    requires 0 < |Text(b)| <= |s| && Text(b) == s[..|Text(b)|]
    requires a.Param? ==> |a.name| == |b.name| == WordLen(word, s[1..])
    ensures a == b
  {
    if a.Param? {
      assert Text(a)[1..] == a.name && Text(b)[1..] == b.name;
    } else {
      assert Text(a)[0] == s[0] && Text(b)[0] == s[0];
    }
  }

  lemma FirstDiffers(word: WordClass, a: seq<Token>, b: seq<Token>, s: string, at: nat)
    requires a != [] && b != [] && a[0].Param? && b[0].Plain?
    requires Describes(word, a, s) && Describes(word, b, s)
    ensures Rewriting(a) != Rewriting(b) && Places(a, at) != Places(b, at)
  {
    hide WordLen, Rewriting, Names, Places;
    Head(word, a, s, at);
    Head(word, b, s, at);
    assert s[0] == Text(a[0])[0] == ':' && s[0] == Text(b[0])[0];
    assert Rewriting(a)[0] == '?' && Rewriting(b)[0] == ':';
    PlacesComeLater(b[1..], at + 1);
    assert Places(a, at)[0] == at;
  }

  lemma RewritingsOf(word: WordClass, a: seq<Token>, b: seq<Token>, s: string)
    requires Describes(word, a, s) && Describes(word, b, s)
    ensures Rewriting(a) == Rewriting(b) <==> Places(a, 0) == Places(b, 0)
    ensures Places(a, 0) == Places(b, 0) ==> Names(a) == Names(b)
  {
    FlatIsTheSame(word, a, s, 0);
    FlatIsTheSame(word, b, s, 0);
    FlatRewritings(word, Flat(a), Flat(b), s, 0);
  }

  /** The client finds parameters at exactly the offsets where they are. */
  predicate FindsParameters(word: WordClass, rawSql: string) {
    Places(Scan(word, rawSql), 0) == Places(ServerScan(word, rawSql), 0)
  }

  /** Exactly when rewriting preserves meaning, for every statement and all values: when the
      client finds parameters at exactly the offsets where they are, and the statement has no
      question mark of its own for the server to fill. */
  lemma RewritingPreservesMeaningIff(word: WordClass, rawSql: string, values: map<string, Value>)
    requires IsWordClass(word) && Covered(word, rawSql, values)
    ensures Preserves(word, rawSql, values) <==>
              FindsParameters(word, rawSql) && Marks(ServerScan(word, rawSql)) == 0
  {
    hide Scan, ServerScan, Preserves, Lookup, Marks, Join, RewrittenAll, Names, Places, Describes;
    SameRewritingIff(word, rawSql, values);
    ScanDescribes(word, rawSql);
    ServerScanDescribes(word, rawSql);
    RewritingsOf(word, Scan(word, rawSql), ServerScan(word, rawSql), rawSql);
  }

  /** The server gets as many values as it has places for, if the client finds the parameters:
      exactly when the statement has no question mark of its own. */
  lemma ValuesFitIff(word: WordClass, rawSql: string)
    requires IsWordClass(word) && FindsParameters(word, rawSql)
    ensures var p := ParseSpec(word, rawSql);
            Marks(ServerTokens(p.sql)) == |p.names| <==> Marks(ServerScan(word, rawSql)) == 0
  {
    hide Scan, ServerScan, Marks, Join, RewrittenAll, Names, Places, Describes;
    ScanDescribes(word, rawSql);
    ServerScanDescribes(word, rawSql);
    RewritingsOf(word, Scan(word, rawSql), ServerScan(word, rawSql), rawSql);
    ServerScanOfRewritten(word, _ => false, rawSql);
    MarksOfRewritten(ServerScan(word, rawSql));
  }

  // ---------------------------------------------------------------- statements without stray quotes

  /** No identifier and no comment holds a single quote. */
  predicate QuoteFree(tokens: seq<Token>) {
    forall i :: 0 <= i < |tokens| && tokens[i].Skipped? && tokens[i].text != "" && tokens[i].text[0] != '\'' ==>
      !HasQuote(tokens[i].text)
  }

  /** The tokens the client finds in those of the server. */
  function Exploded(word: WordClass, tokens: seq<Token>): seq<Token> {
    if tokens == [] then []
    else (if tokens[0].Skipped? then Scan(word, tokens[0].text) else [tokens[0]]) + Exploded(word, tokens[1..])
  }

  /** The names the client finds in identifiers, comments and literals that are not closed. */
  function HiddenNames(word: WordClass, tokens: seq<Token>): seq<string> {
    if tokens == [] then []
    else (if tokens[0].Skipped? then Names(Scan(word, tokens[0].text)) else []) + HiddenNames(word, tokens[1..])
  }

  /** Scanning goes on behind a text that does not end in the middle of a token. */
  lemma {:induction false} ScanSplits(word: WordClass, text: string, rest: string)
    requires IsWordClass(word) && !HasQuote(text)
    requires text != "" && rest != "" ==> !word(text[|text| - 1]) && text[|text| - 1] != ':'
    ensures Scan(word, text + rest) == Scan(word, text) + Scan(word, rest)
    decreases |text|
  {
    hide Scan, First, HasQuote, FindQuote, Text;
    if text == "" {
      assert text + rest == rest && Scan(word, text) == [] by { NothingScanned(word); }
    } else if rest == "" {
      assert text + rest == text && Scan(word, rest) == [] by { NothingScanned(word); }
    } else {
      FirstStays(word, text, rest);
      FirstIsPrefix(word, text);
      var n := |Text(First(word, text))|;
      var tail := text[n..];
      assert (text + rest)[n..] == tail + rest;
      QuotelessSuffix(text, n);
      LastStays(text, n);
      ScanSplits(word, tail, rest);
      ScanStep(word, text);
      ScanStep(word, text + rest);
      assert Scan(word, text + rest) == [First(word, text)] + (Scan(word, tail) + Scan(word, rest));
    }
  }

  lemma NothingScanned(word: WordClass)
    ensures Scan(word, "") == []
  {
  }

  lemma ScanStep(word: WordClass, s: string)
    requires s != ""
    ensures |Text(First(word, s))| <= |s|
    ensures Scan(word, s) == [First(word, s)] + Scan(word, s[|Text(First(word, s))|..])
  {
    hide First;
    FirstIsPrefix(word, s);
  }

  lemma LastStays(text: string, n: nat)
    requires n <= |text|
    ensures text[n..] != "" ==> text[n..][|text[n..]| - 1] == text[|text| - 1]
  {
  }

  lemma QuotelessSuffix(s: string, n: nat)
    requires !HasQuote(s) && n <= |s|
    ensures !HasQuote(s[n..])
  {
    assert forall i :: 0 <= i < |s| ==> s[i] != '\'';
    assert forall i :: 0 <= i < |s[n..]| ==> s[n..][i] == s[n + i];
  }

  lemma FirstStays(word: WordClass, text: string, rest: string)
    requires text != "" && !HasQuote(text) && !word(text[|text| - 1]) && text[|text| - 1] != ':'
    ensures First(word, text + rest) == First(word, text)
  {
    var s := text + rest;
    assert s[0] == text[0] && text[0] != '\'';
    if text[0] == ':' {
      assert |text| > 1;
      WordStays(word, text[1..], rest);
      assert s[1..] == text[1..] + rest;
      var n := WordLen(word, text[1..]);
      assert (text[1..] + rest)[..n] == text[1..][..n];
    }
  }

  lemma {:induction false} WordStays(word: WordClass, text: string, rest: string)
    requires text != "" && !word(text[|text| - 1])
    ensures WordLen(word, text + rest) == WordLen(word, text)
  {
    if word(text[0]) {
      assert (text + rest)[1..] == text[1..] + rest;
      WordStays(word, text[1..], rest);
    }
  }

  /** How what the client does not know ends when something follows. */
  lemma SkippedEnd(word: WordClass, s: string)
    requires IsWordClass(word) && s != "" && 0 < SkippedLen(s) < |s|
    ensures var text := s[..SkippedLen(s)];
            && text[0] != '\'' && !word(text[|text| - 1]) && text[|text| - 1] != ':'
  {
    if s[0] == '"' {
      BehindEnds(s[1..], "\"");
    } else if "--" <= s {
      BehindEnds(s[2..], "\n");
    } else {
      BehindEnds(s[2..], "*/");
    }
  }

  lemma {:induction false} BehindEnds(s: string, mark: string)
    requires mark != "" && Behind(s, mark) < |s|
    ensures Behind(s, mark) > 0 && s[Behind(s, mark) - 1] == mark[|mark| - 1]
  {
    if !(mark <= s) {
      BehindEnds(s[1..], mark);
    }
  }

  lemma {:induction false} ScanIsExploded(word: WordClass, s: string)
    requires IsWordClass(word) && QuoteFree(ServerScan(word, s))
    ensures Scan(word, s) == Exploded(word, ServerScan(word, s))
    decreases |s|
  {
    hide First, SkippedLen, HasQuote;
    if s != "" {
      ServerFirstIsPrefix(word, s);
      var t := ServerFirst(word, s);
      var rest := s[|Text(t)|..];
      var tokens := ServerScan(word, s);
      assert tokens[0] == t && tokens[1..] == ServerScan(word, rest);
      ScanIsExploded(word, rest);
      if t.Skipped? {
        SkippedOnce(word, s);
        assert s == t.text + rest;
        if rest == "" {
          assert t.text == s && Exploded(word, tokens[1..]) == [];
          assert Scan(word, s) + [] == Scan(word, s);
        } else {
          SkippedEnd(word, s);
          ScanSplits(word, t.text, rest);
        }
      } else {
        assert First(word, s) == t;
      }
    }
  }

  lemma SkippedOnce(word: WordClass, s: string)
    requires s != ""
    ensures ServerFirst(word, s).Skipped? <==> SkippedLen(s) > 0
  {
  }

  lemma TokensConcat(a: seq<Token>, b: seq<Token>)
    ensures Join(RewrittenAll(a + b)) == Join(RewrittenAll(a)) + Join(RewrittenAll(b))
    ensures Names(a + b) == Names(a) + Names(b)
  {
    hide Join, RewrittenAll, Names;
    RewrittenConcat(a, b);
    JoinConcat(RewrittenAll(a), RewrittenAll(b));
    NamesConcat(a, b);
  }

  lemma {:induction false} RewrittenConcat(a: seq<Token>, b: seq<Token>)
    ensures RewrittenAll(a + b) == RewrittenAll(a) + RewrittenAll(b)
  {
    if a == [] {
      assert a + b == b;
    } else {
      assert (a + b)[1..] == a[1..] + b;
      RewrittenConcat(a[1..], b);
    }
  }

  lemma {:induction false} JoinConcat(a: seq<Token>, b: seq<Token>)
    ensures Join(a + b) == Join(a) + Join(b)
  {
    hide Text;
    if a == [] {
      assert a + b == b;
    } else {
      assert (a + b)[1..] == a[1..] + b;
      JoinConcat(a[1..], b);
      assert Join(a + b) == Text(a[0]) + (Join(a[1..]) + Join(b));
    }
  }

  lemma {:induction false} NamesConcat(a: seq<Token>, b: seq<Token>)
    ensures Names(a + b) == Names(a) + Names(b)
  {
    if a == [] {
      assert a + b == b;
    } else {
      assert (a + b)[1..] == a[1..] + b;
      NamesConcat(a[1..], b);
      var first := if a[0].Param? then [a[0].name] else [];
      assert Names(a + b) == first + (Names(a[1..]) + Names(b));
    }
  }

  /** Rewriting shortens a text exactly when there is a name in it. */
  lemma {:induction false} RewritingShortens(tokens: seq<Token>)
    requires forall i :: 0 <= i < |tokens| && tokens[i].Param? ==> tokens[i].name != ""
    ensures |Join(RewrittenAll(tokens))| <= |Join(tokens)|
    ensures Names(tokens) == [] ==> Join(RewrittenAll(tokens)) == Join(tokens)
    ensures Names(tokens) != [] ==> |Join(RewrittenAll(tokens))| < |Join(tokens)|
  {
    if tokens != [] {
      RewritingShortens(tokens[1..]);
    }
  }

  lemma {:induction false} NamesAreNotEmpty(word: WordClass, s: string)
    ensures forall i :: 0 <= i < |Scan(word, s)| && Scan(word, s)[i].Param? ==> Scan(word, s)[i].name != ""
    decreases |s|
  {
    if s != "" {
      FirstIsPrefix(word, s);
      NamesAreNotEmpty(word, s[|Text(First(word, s))|..]);
    }
  }

  /** The two rewritings differ exactly when there is a hidden name. */
  lemma {:induction false} HiddenNamesDiffer(word: WordClass, tokens: seq<Token>)
    ensures |Join(RewrittenAll(Exploded(word, tokens)))| <= |Join(RewrittenAll(tokens))|
    ensures HiddenNames(word, tokens) == [] ==>
              Join(RewrittenAll(Exploded(word, tokens))) == Join(RewrittenAll(tokens))
              && Names(Exploded(word, tokens)) == Names(tokens)
    ensures HiddenNames(word, tokens) != [] ==>
              |Join(RewrittenAll(Exploded(word, tokens)))| < |Join(RewrittenAll(tokens))|
  {
    hide Scan;
    if tokens != [] {
      HiddenNamesDiffer(word, tokens[1..]);
      if tokens[0].Skipped? {
        var text := tokens[0].text;
        TokensConcat(Scan(word, text), Exploded(word, tokens[1..]));
        NamesAreNotEmpty(word, text);
        RewritingShortens(Scan(word, text));
        JoinOfScan(word, text);
      } else {
        TokensConcat([tokens[0]], Exploded(word, tokens[1..]));
        assert [tokens[0]][1..] == [];
      }
    }
  }

  /** Without single quotes in identifiers and comments, the parameters are found exactly when
      these hold no `:name`. */
  lemma QuoteFreeStatementIff(word: WordClass, rawSql: string, values: map<string, Value>)
    requires IsWordClass(word) && Covered(word, rawSql, values)
    requires QuoteFree(ServerScan(word, rawSql))
    ensures Preserves(word, rawSql, values) <==>
              HiddenNames(word, ServerScan(word, rawSql)) == [] && Marks(ServerScan(word, rawSql)) == 0
  {
    hide Scan, ServerScan, Preserves, Lookup, Marks, Exploded, HiddenNames, Join, RewrittenAll, Names;
    RewritingPreservesMeaningIff(word, rawSql, values);
    SameRewritingIff(word, rawSql, values);
    ScanIsExploded(word, rawSql);
    HiddenNamesDiffer(word, ServerScan(word, rawSql));
  }

  /** The first token of a parse. */
  lemma FirstParsed(word: WordClass, s: string, t: Token)
    requires s != "" && First(word, s) == t
    ensures |Text(t)| <= |s|
    ensures var rest := ParseSpec(word, s[|Text(t)|..]);
            && ParseSpec(word, s).sql == Text(Rewritten(t)) + rest.sql
            && ParseSpec(word, s).names == (if t.Param? then [t.name] else []) + rest.names
  {
    FirstIsPrefix(word, s);
  }

  lemma NothingParsed(word: WordClass)
    ensures ParseSpec(word, "") == Parsed("", [])
  {
  }

  /** A name in a quoted identifier is taken for a parameter, and the identifier is broken. */
  lemma NameInIdentifier(word: WordClass)
    requires IsWordClass(word) && word('b')
    ensures ParseSpec(word, "\":b\"") == Parsed("\"?\"", ["b"])
    ensures ServerTokens("\"?\"") == [Skipped("\"?\"")]
  {
    hide ParseSpec, SkippedLen, ServerScan, First;
    PlainFirst(word, "\":b\"");
    PlainFirst(word, "\"");
    FirstParsed(word, "\":b\"", Plain('"'));
    assert "\":b\""[1..] == ":b\"";
    OneLetterName(word, "\"");
    assert ":b" + "\"" == ":b\"";
    FirstParsed(word, ":b\"", Param("b"));
    assert ":b\""[2..] == "\"";
    FirstParsed(word, "\"", Plain('"'));
    assert "\""[1..] == "";
    NothingParsed(word);
    WholeIdentifier();
  }

  lemma WholeIdentifier()
    ensures ServerTokens("\"?\"") == [Skipped("\"?\"")]
  {
    IdentifierIsSkipped("\"?\"");
    assert "\"?\""[..3] == "\"?\"" && "\"?\""[3..] == "";
  }

  lemma OneLetterName(word: WordClass, rest: string)
    requires word('b') && (rest == "" || !word(rest[0]))
    ensures First(word, ":b" + rest) == ServerFirst(word, ":b" + rest) == Param("b")
  {
    StartsWithTwo(":b" + rest);
    assert (":b" + rest)[1..] == "b" + rest && ("b" + rest)[1..] == rest;
  }

  /** A quote in an identifier hides a parameter behind it from the client. */
  lemma QuoteInIdentifier(word: WordClass)
    requires IsWordClass(word) && word('b')
    ensures ParseSpec(word, "\"'\":b\"'\"") == Parsed("\"'\":b\"'\"", [])
    ensures ServerFirst(word, "\"'\":b\"'\"") == Skipped("\"'\"") && ServerFirst(word, ":b\"'\"") == Param("b")
  {
    hide ParseSpec, ServerFirst, First;
    LiteralInIdentifier(word);
    IdentifierThenName(word);
  }

  lemma LiteralInIdentifier(word: WordClass)
    ensures ParseSpec(word, "\"'\":b\"'\"") == Parsed("\"'\":b\"'\"", [])
  {
    hide ParseSpec, First;
    var s, literal, last := "\"'\":b\"'\"", "'\":b\"'", "\"";
    PlainFirst(word, s);
    FirstParsed(word, s, Plain('"'));
    LiteralFirst(word, literal, last);
    FirstParsed(word, literal + last, Quoted(literal));
    PlainFirst(word, last);
    FirstParsed(word, last, Plain('"'));
    NothingParsed(word);
    assert s[1..] == literal + last && (literal + last)[6..] == last && last[1..] == "";
  }

  lemma IdentifierThenName(word: WordClass)
    requires IsWordClass(word) && word('b')
    ensures ServerFirst(word, "\"'\":b\"'\"") == Skipped("\"'\"") && ServerFirst(word, ":b\"'\"") == Param("b")
  {
    hide SkippedLen, First;
    var s := "\"'\":b\"'\"";
    IdentifierIsSkipped(s);
    assert s[..3] == "\"'\"";
    OneLetterName(word, "\"'\"");
    assert ":b" + "\"'\"" == ":b\"'\"";
  }

  lemma PlainFirst(word: WordClass, s: string)
    requires s != "" && s[0] != '\'' && s[0] != ':'
    ensures First(word, s) == Plain(s[0])
  {
  }

  lemma LiteralFirst(word: WordClass, literal: string, more: string)
    requires |literal| >= 2 && literal[0] == '\'' && literal[|literal| - 1] == '\''
    requires forall i :: 0 < i < |literal| - 1 ==> literal[i] != '\''
    ensures First(word, literal + more) == Quoted(literal)
  {
    var s := literal + more;
    QuoteAt(s[1..], |literal| - 2);
    assert s[..|literal|] == literal;
  }

  lemma IdentifierIsSkipped(s: string)
    requires |s| >= 3 && s[0] == '"' && s[1] != '"' && s[2] == '"'
    ensures SkippedLen(s) == 3
  {
    assert s[1..][1..] == s[2..] && "\"" <= s[2..] && s[1..][0] == s[1];
    assert Behind(s[2..], "\"") == 1 && Behind(s[1..], "\"") == 2;
  }

  lemma {:induction false} QuoteAt(s: string, k: nat)
    requires k < |s| && s[k] == '\'' && forall i :: 0 <= i < k ==> s[i] != '\''
    ensures FindQuote(s) == k
  {
    if k > 0 {
      QuoteAt(s[1..], k - 1);
    }
  }
}
