/** Printing schema-qualified names, and reading them back by the lexical rules of
    section 4.1.1 (Identifiers and Key Words) of the PostgreSQL documentation. */
module Identifiers {
  import opened Decimal
  import opened Options
  import opened Scanning

  predicate IsLower(c: char) { 'a' <= c <= 'z' }
  predicate IsUpper(c: char) { 'A' <= c <= 'Z' }

  // ---- The printer

  predicate IsIdentStart(c: char) { IsLower(c) || IsUpper(c) || c == '_' }
  predicate IsIdentChar(c: char) { IsIdentStart(c) || IsDigit(c) || c == '$' }

  predicate EndsInNewline(name: string) { name != "" && name[|name| - 1] == '\n' }

  /** Python's `$` also matches before a newline at the end of the text. */
  function UpToNewline(name: string): string {
    if EndsInNewline(name) then name[..|name| - 1] else name
  }

  predicate IsIdent(word: string) {
    word != "" && IsIdentStart(word[0]) && All(IsIdentChar, word[1..])
  }

  /** Whether `_IDENT` matches. */
  predicate MatchesIdent(name: string) { IsIdent(UpToNewline(name)) }

  function LowerChar(c: char): char {
    if IsUpper(c) then c - 'A' + 'a' else c
  }

  /** `str.lower`, on the characters `_IDENT` lets through. */
  function Lower(s: string): string {
    seq(|s|, i requires 0 <= i < |s| => LowerChar(s[i]))
  }

  predicate PrintedBare(name: string) { MatchesIdent(name) && Lower(name) == name }

  /** Each quote twice. */
  function DoubleQuotes(name: string): string {
    if name == "" then ""
    else (if name[0] == '"' then "\"\"" else [name[0]]) + DoubleQuotes(name[1..])
  }

  function QuoteIdentifier(name: string): string {
    if PrintedBare(name) then name else "\"" + DoubleQuotes(name) + "\""
  }

  function Qualified(schema: string, name: string): string {
    QuoteIdentifier(schema) + "." + QuoteIdentifier(name)
  }

  /** A lower-case letter or underscore, then lower-case letters, underscores, digits and
      dollar signs. */
  predicate IsLowerWord(word: string) {
    && word != "" && ('a' <= word[0] <= 'z' || word[0] == '_')
    && forall c <- word[1..] :: 'a' <= c <= 'z' || c == '_' || '0' <= c <= '9' || c == '$'
  }

  /** Printed without quotes are exactly the lower-case words, even with a newline at
      the end; everything else is printed between quotes. */
  lemma PrintedBareIff(name: string)
    ensures QuoteIdentifier(name) == name <==>
            IsLowerWord(name) || exists word: string :: IsLowerWord(word) && name == word + "\n"
    ensures QuoteIdentifier(name) != name ==>
              var t := QuoteIdentifier(name);
              |t| >= 2 && t[0] == '"' && t[|t| - 1] == '"' && t[1..|t| - 1] == DoubleQuotes(name)
  {
    BareIsLowerWord(name);
    LowerWordOrNewline(name);
    QuotedShape(name);
  }

  lemma QuotedShape(name: string)
    ensures var t := "\"" + DoubleQuotes(name) + "\"";
            && t != name && |t| >= 2 && t[0] == '"' && t[|t| - 1] == '"'
            && t[1..|t| - 1] == DoubleQuotes(name)
  {
    DoubleQuotesIsLonger(name);
  }

  lemma LowerWordOrNewline(name: string)
    ensures IsLowerWord(UpToNewline(name)) <==>
            IsLowerWord(name) || exists word: string :: IsLowerWord(word) && name == word + "\n"
  {
    LowerWordHasNoNewline(name);
    if word: string :| IsLowerWord(word) && name == word + "\n" {
      assert UpToNewline(name) == word;
    }
    if EndsInNewline(name) {
      assert name == UpToNewline(name) + "\n";
    }
  }

  lemma LowerWordHasNoNewline(word: string)
    ensures IsLowerWord(word) ==> !EndsInNewline(word)
  {
    if word != "" {
      var n := |word| - 1;
      assert word[n] == word[0] || word[n] in word[1..];
    }
  }

  lemma BareIsLowerWord(name: string)
    ensures PrintedBare(name) <==> IsLowerWord(UpToNewline(name))
  {
    var word := UpToNewline(name);
    assert name == word + if EndsInNewline(name) then "\n" else "";
    if PrintedBare(name) {
      forall i | 0 <= i < |word| ensures !IsUpper(word[i]) {
        assert Lower(name)[i] == name[i];
      }
      forall c | c in word[1..] ensures !IsUpper(c) && IsIdentChar(c) {}
    }
    if IsLowerWord(word) {
      assert word == [word[0]] + word[1..];
      forall i | 0 <= i < |name| ensures Lower(name)[i] == name[i] {
        assert i < |word| ==> word[i] == word[0] || word[i] in word[1..];
      }
    }
  }

  lemma {:induction false} DoubleQuotesIsLonger(name: string)
    ensures |DoubleQuotes(name)| >= |name|
  {
    if name != "" {
      DoubleQuotesIsLonger(name[1..]);
    }
  }

  // ---- The reader

  predicate IsSqlStart(c: char) { 'a' <= c <= 'z' || 'A' <= c <= 'Z' || c == '_' || c as int >= 128 }
  predicate IsSqlChar(c: char) { IsSqlStart(c) || '0' <= c <= '9' || c == '$' }
  predicate IsSqlSpace(c: char) { c == ' ' || 9 <= c as int <= 13 }

  const NUL: char := 0 as char

  /** The text up to the closing quote, with doubled quotes undone, and what follows. */
  function ReadQuoted(s: string): Option<(string, string)> {
    if s == "" || s[0] == NUL then None
    else if s[0] != '"' then Prepend(s[0], ReadQuoted(s[1..]))
    else if |s| > 1 && s[1] == '"' then Prepend('"', ReadQuoted(s[2..]))
    else Some(("", s[1..]))
  }

  function Prepend(c: char, r: Option<(string, string)>): Option<(string, string)> {
    match r
    case None => None
    case Some((text, rest)) => Some(([c] + text, rest))
  }

  /** An identifier and the rest of the input: folded to lower case when bare, taken
      as it is and not empty when quoted. */
  function ReadIdentifier(s: string): Option<(string, string)> {
    if s == "" then None
    else if s[0] == '"' then
      match ReadQuoted(s[1..])
      case Some((text, rest)) => if text == "" then None else Some((text, rest))
      case None => None
    else if IsSqlStart(s[0]) then
      var n := Run(IsSqlChar, s);
      Some((Lower(s[..n]), s[n..]))
    else None
  }

  function SkipSpace(s: string): string { s[Run(IsSqlSpace, s)..] }

  /** Identifier, dot, identifier and nothing else, with white space between tokens. */
  function ReadQualified(s: string): Option<(string, string)> {
    match ReadIdentifier(s)
    case None => None
    case Some((schema, rest)) => ReadName(schema, SkipSpace(rest))
  }

  /** What follows the schema. */
  function ReadName(schema: string, s: string): (r: Option<(string, string)>)
    ensures r.Some? ==> r.value.0 == schema
  {
    if s == "" || s[0] != '.' then None
    else
      match ReadIdentifier(SkipSpace(s[1..]))
      case None => None
      case Some((name, end)) => if SkipSpace(end) == "" then Some((schema, name)) else None
  }

  // ---- Round trip

  /** Not empty, free of the null character, and not a lower-case word with a newline
      at its end. */
  predicate Readable(name: string) {
    name != "" && NUL !in name && !(PrintedBare(name) && EndsInNewline(name))
  }

  lemma {:induction false} QuotedReadsBack(name: string, rest: string)
    requires rest == "" || rest[0] != '"'
    ensures ReadQuoted(DoubleQuotes(name) + "\"" + rest) ==
            if NUL in name then None else Some((name, rest))
  {
    var s := DoubleQuotes(name) + "\"" + rest;
    if name == "" {
      assert s[1..] == rest;
    } else {
      var tail := DoubleQuotes(name[1..]) + "\"" + rest;
      QuotedReadsBack(name[1..], rest);
      assert name == [name[0]] + name[1..];
      if name[0] == '"' {
        assert s == "\"\"" + tail && s[2..] == tail;
      } else {
        assert s == [name[0]] + tail && s[1..] == tail;
      }
    }
  }

  lemma BareReadsBack(word: string, rest: string)
    requires IsIdent(word) && Lower(word) == word
    requires rest == "" || !IsSqlChar(rest[0])
    ensures ReadIdentifier(word + rest) == Some((word, rest))
  {
    assert word == [word[0]] + word[1..];
    RunStops(IsSqlChar, word, rest);
    assert (word + rest)[..|word|] == word && (word + rest)[|word|..] == rest;
  }

  lemma BareWord(name: string)
    requires PrintedBare(name)
    ensures var word := UpToNewline(name); IsIdent(word) && Lower(word) == word && NUL !in name
  {
    var word := UpToNewline(name);
    assert word == [word[0]] + word[1..];
    assert name == word + if EndsInNewline(name) then "\n" else "";
    forall i | 0 <= i < |word| ensures LowerChar(word[i]) == word[i] {
      assert Lower(name)[i] == name[i];
    }
  }

  lemma QuotedNameReadsBack(name: string, rest: string)
    requires rest == "" || rest[0] == '.'
    ensures ReadIdentifier("\"" + DoubleQuotes(name) + "\"" + rest) ==
            if name == "" || NUL in name then None else Some((name, rest))
  {
    var inner := DoubleQuotes(name) + "\"" + rest;
    assert "\"" + DoubleQuotes(name) + "\"" + rest == ['"'] + inner;
    assert (['"'] + inner)[1..] == inner;
    assert ReadQuoted(inner) == (if NUL in name then None else Some((name, rest))) by {
      QuotedReadsBack(name, rest);
    }
  }

  /** Reading one printed name gives it back, exactly when it is readable. */
  lemma IdentifierReadsBack(name: string, rest: string)
    requires rest == "" || rest[0] == '.'
    ensures Readable(name) ==> ReadIdentifier(QuoteIdentifier(name) + rest) == Some((name, rest))
    ensures !Readable(name) ==>
              var r := ReadIdentifier(QuoteIdentifier(name) + rest);
              r.None? || (r.value.0 != name && r.value.1 == "\n" + rest)
  {
    if PrintedBare(name) {
      BareWord(name);
      if EndsInNewline(name) {
        BareReadsBack(UpToNewline(name), "\n" + rest);
        assert name + rest == UpToNewline(name) + ("\n" + rest);
      } else {
        BareReadsBack(name, rest);
      }
    } else {
      QuotedNameReadsBack(name, rest);
    }
  }

  /** Reading `qualified(schema, name)` returns exactly the pair, if and only if both
      names are readable. */
  lemma QualifiedReadsBackIff(schema: string, name: string)
    ensures ReadQualified(Qualified(schema, name)) == Some((schema, name)) <==>
            Readable(schema) && Readable(name)
  {
    var tail := "." + QuoteIdentifier(name);
    IdentifierReadsBack(schema, tail);
    assert Qualified(schema, name) == QuoteIdentifier(schema) + tail;
    NameReadsBack(schema, name);
  }

  lemma NameReadsBack(schema: string, name: string)
    ensures var tail := "." + QuoteIdentifier(name);
            SkipSpace(tail) == tail &&
            (ReadName(schema, tail) == Some((schema, name)) <==> Readable(name))
  {
    var tail := "." + QuoteIdentifier(name);
    IdentifierReadsBack(name, "");
    assert QuoteIdentifier(name) + "" == QuoteIdentifier(name);
    assert Run(IsSqlSpace, tail) == 0 && tail[1..] == QuoteIdentifier(name);
    assert !IsSqlSpace(QuoteIdentifier(name)[0]);
    assert SkipSpace(tail[1..]) == tail[1..];
  }

  /** Different pairs of readable names print differently. */
  lemma QualifiedIsInjective(schema: string, name: string, schema': string, name': string)
    requires Readable(schema) && Readable(name) && Readable(schema') && Readable(name')
    requires Qualified(schema, name) == Qualified(schema', name')
    ensures schema == schema' && name == name'
  {
    QualifiedReadsBackIff(schema, name);
    QualifiedReadsBackIff(schema', name');
  }

  /** A name that fails: bare with its newline, it reads back without. */
  lemma TrailingNewlineIsLost()
    ensures ReadQualified(Qualified("a", "b\n")) != Some(("a", "b\n"))
  {
    assert UpToNewline("b\n") == "b" && Lower("b\n") == "b\n";
    assert !Readable("b\n");
    QualifiedReadsBackIff("a", "b\n");
  }
}
