/**
 * The text handling of the command interpreter: the `where` and `set`
 * clauses (`col=value`) and the parenthesised values list of `insert`.
 * A clause value loses its surrounding double quotes, then its surrounding
 * single quotes, and is then read as a boolean, a non-negative integer or
 * left as a string.
 */
module Clauses {
  import opened Wrappers
  import opened Text
  import opened Values
  import opened Records

  const DoubleQuote: set<char> := {'"'}
  const SingleQuote: set<char> := {'\''}

  /** `val.strip('"').strip("'")`. */
  function Unquote(s: string): string {
    Strip(Strip(s, DoubleQuote), SingleQuote)
  }

  /** A clause value's reading: `true`/`false` in any letter case become
      booleans (checked first), a non-empty run of ASCII digits becomes an
      integer, and any other text stays the string it is. */
  function Classify(text: string): (v: Value)
    ensures v.VBool? <==> Lower(text) in {"true", "false"}
    ensures v.VBool? ==> v.b == (Lower(text) == "true")
    ensures v.VInt? <==> IsDigits(text)
    ensures v.VInt? ==> v.i == DigitsValue(text)
    ensures v.VStr? ==> v.s == text
  {
    var l := Lower(text);
    assert IsDigits(text) ==> l != "true" && l != "false" by {
      if IsDigits(text) {
        DigitsAreNotWords(text);
      }
    }
    if l == "true" then VBool(true)
    else if l == "false" then VBool(false)
    else if IsDigits(text) then VInt(DigitsValue(text))
    else VStr(text)
  }

  /** A run of digits is never `true` or `false`, whatever its case. */
  lemma DigitsAreNotWords(text: string)
    requires IsDigits(text)
    ensures Lower(text) != "true" && Lower(text) != "false"
  {
    assert Lower(text)[0] == LowerChar(text[0]);
  }

  /** Decimal text reads back as the number it writes, and a leading `-` or
      `+` or an empty text keeps a value a string. */
  lemma ClassifyNumbers(n: nat)
    ensures Classify(NatToString(n)) == VInt(n)
    ensures Classify("-" + NatToString(n)) == VStr("-" + NatToString(n))
    ensures Classify("+" + NatToString(n)) == VStr("+" + NatToString(n))
    ensures Classify("") == VStr("")
  {
    NatToStringRoundTrip(n);
    var neg := "-" + NatToString(n);
    assert !IsDigit(neg[0]);
    assert Lower(neg)[0] == '-';
    var pos := "+" + NatToString(n);
    assert !IsDigit(pos[0]);
    assert Lower(pos)[0] == '+';
    assert Lower("") == "";
  }

  /** Letter case does not matter for the boolean words: any text that
      lowers to `true` or `false` reads as that boolean, and nothing else
      does. */
  lemma ClassifyWords(t: string)
    ensures Lower(t) == "true" <==> Classify(t) == VBool(true)
    ensures Lower(t) == "false" <==> Classify(t) == VBool(false)
  {
  }

  /** For instance `TRUE` and `False`. */
  lemma ClassifyWordExamples()
    ensures Classify("TRUE") == VBool(true)
    ensures Classify("False") == VBool(false)
  {
    assert Lower("TRUE") == "true";
    assert Lower("False") == "false";
  }

  /** `col, val = clause.split("=", 1)` followed by unquoting and
      classifying `val`; `None` when the clause has no `=`. */
  function ParseClauseToken(clause: string): (r: Option<(string, Value)>)
    ensures r.None? <==> '=' !in clause
    ensures r.Some? ==> '=' !in r.value.0 &&
                        exists raw :: clause == r.value.0 + "=" + raw && r.value.1 == Classify(Unquote(raw))
  {
    match SplitFirst(clause, '=')
    case None => None
    case Some((col, raw)) => Some((col, Classify(Unquote(raw))))
  }

  /** The text a clause value is written as: digits for a non-negative
      integer, the lower-case word for a boolean, a string in double quotes. */
  function Literal(v: Value): string {
    match v
    case VInt(n) => IntToString(n)
    case VBool(b) => if b then "true" else "false"
    case VStr(s) => "\"" + s + "\""
  }

  /** A value a clause can express: a non-negative integer, a boolean, or a
      string that would not read as either and has no quote at either end. */
  predicate Expressible(v: Value) {
    match v
    case VInt(n) => n >= 0
    case VBool(_) => true
    case VStr(s) => Classify(s) == VStr(s) && (s == [] || (s[0] !in {'"', '\''} && s[|s| - 1] !in {'"', '\''}))
  }

  /** Writing `col=<literal>` and parsing it gives back the column and value. */
  lemma ClauseRoundTrip(col: string, v: Value)
    requires '=' !in col
    requires Expressible(v)
    ensures ParseClauseToken(col + "=" + Literal(v)) == Some((col, v))
  {
    ClauseOf(col, Literal(v));
    LiteralRoundTrip(v);
  }

  /** The column is the text before the first `=`, the raw value all after it. */
  lemma ClauseOf(col: string, raw: string)
    requires '=' !in col
    ensures ParseClauseToken(col + "=" + raw) == Some((col, Classify(Unquote(raw))))
  {
    assert col + "=" + raw == col + ['='] + raw;
    SplitFirstUnique(col, raw, '=');
  }

  /** Unquoting and classifying a literal gives back its value. */
  lemma LiteralRoundTrip(v: Value)
    requires Expressible(v)
    ensures Classify(Unquote(Literal(v))) == v
  {
    match v
    case VInt(n) =>
      NatToStringRoundTrip(n);
      var s := NatToString(n);
      assert Literal(v) == s;
      assert IsDigit(s[0]) && IsDigit(s[|s| - 1]);
      StripUntouched(s, DoubleQuote);
      StripUntouched(s, SingleQuote);
      ClassifyNumbers(n);
    case VBool(b) =>
      BoolLiteral(b);
    case VStr(s) =>
      assert Literal(v) == ['"'] + s + ['"'];
      StripWrapped(s, '"');
      StripUntouched(s, SingleQuote);
  }

  lemma BoolLiteral(b: bool)
    ensures Classify(Unquote(if b then "true" else "false")) == VBool(b)
  {
    if b {
      WordLiteral("true");
    } else {
      WordLiteral("false");
    }
  }

  /** A lower-case word is left alone by unquoting and by lowering. */
  lemma WordLiteral(w: string)
    requires |w| > 0 && LowerWord(w)
    ensures Unquote(w) == w && Lower(w) == w
  {
    WordUnquoted(w);
    WordLowered(w);
  }

  /** Only the letters `a` to `z`. */
  predicate LowerWord(w: string) {
    forall k :: 0 <= k < |w| ==> 'a' <= w[k] <= 'z'
  }

  lemma WordUnquoted(w: string)
    requires |w| > 0 && LowerWord(w)
    ensures Unquote(w) == w
  {
    assert 'a' <= w[0] <= 'z' && 'a' <= w[|w| - 1] <= 'z';
    StripUntouched(w, DoubleQuote);
    StripUntouched(w, SingleQuote);
  }

  lemma WordLowered(w: string)
    requires LowerWord(w)
    ensures Lower(w) == w
  {
    assert forall k :: 0 <= k < |w| ==> Lower(w)[k] == w[k];
  }

  /** `args.index(kw)`: position of the first occurrence. */
  function IndexOf(args: seq<string>, kw: string): (r: Option<nat>)
    ensures r.None? <==> kw !in args
    ensures r.Some? ==> r.value < |args| && args[r.value] == kw && kw !in args[..r.value]
  {
    if |args| == 0 then None
    else if args[0] == kw then Some(0)
    else
      match IndexOf(args[1..], kw)
      case None => None
      case Some(i) =>
        assert args[..i + 1] == [args[0]] + args[1..][..i];
        Some(i + 1)
  }

  /** A keyword that is the last token has no clause after it: the source
      indexes past the end of the token list and raises. */
  datatype ClauseError = MissingOperand(keyword: string)

  /** The clause after the first `kw` token as a one-entry map; `None` when
      `kw` is absent or the token after it has no `=`. */
  function ParseKeywordClause(args: seq<string>, kw: string): (r: Result<Option<Clause>, ClauseError>)
    ensures kw !in args ==> r == Success(None)
    ensures r.Failure? <==> kw in args && IndexOf(args, kw).value + 1 == |args|
    ensures r.Success? && r.value.Some? ==> |r.value.value| == 1
  {
    match IndexOf(args, kw)
    case None => Success(None)
    case Some(i) =>
      if i + 1 >= |args| then Failure(MissingOperand(kw))
      else
        match ParseClauseToken(args[i + 1])
        case None => Success(None)
        case Some((col, v)) =>
          Success(Some(map[col := v]))
  }

  /** The token after the first `kw` decides the clause: without `=` there is
      none, and otherwise it maps the text before the first `=` to the
      reading of the unquoted rest. */
  lemma KeywordClauseCases(args: seq<string>, kw: string, i: nat)
    requires kw in args && IndexOf(args, kw) == Some(i) && i + 1 < |args|
    ensures '=' !in args[i + 1] ==> ParseKeywordClause(args, kw) == Success(None)
    ensures '=' in args[i + 1] ==>
              exists col, raw :: && args[i + 1] == col + "=" + raw && '=' !in col
                                 && ParseKeywordClause(args, kw) == Success(Some(map[col := Classify(Unquote(raw))]))
  {
    var p := ParseClauseToken(args[i + 1]);
    if p.Some? {
      var col := p.value.0;
      var raw :| args[i + 1] == col + "=" + raw && p.value.1 == Classify(Unquote(raw));
      assert ParseKeywordClause(args, kw) == Success(Some(map[col := Classify(Unquote(raw))]));
    }
  }

  /** `parse_where`. */
  function ParseWhere(args: seq<string>): Result<Option<Clause>, ClauseError> {
    ParseKeywordClause(args, "where")
  }

  /** `parse_set`. */
  function ParseSet(args: seq<string>): Result<Option<Clause>, ClauseError> {
    ParseKeywordClause(args, "set")
  }

  /** The clause read after the first occurrence of a keyword depends only on
      the token that follows it. */
  lemma KeywordClause(pre: seq<string>, kw: string, clause: string, post: seq<string>)
    requires kw !in pre
    ensures ParseKeywordClause(pre + [kw, clause] + post, kw) ==
              Success(match ParseClauseToken(clause)
                      case None => None
                      case Some((col, v)) => Some(map[col := v]))
  {
    var args := pre + [kw, clause] + post;
    assert args[|pre|] == kw && args[|pre| + 1] == clause;
    assert args[..|pre|] == pre;
    assert forall k :: 0 <= k < |pre| ==> args[k] == pre[k];
    var i := IndexOf(args, kw);
    assert i.value == |pre|;
  }

  /** `parse_set` and `parse_where` read the same clause token into the same
      column and value, whatever else the token lists hold. */
  lemma WhereAndSetAgree(pre: seq<string>, post: seq<string>, pre': seq<string>, post': seq<string>, clause: string)
    requires "where" !in pre && "set" !in pre'
    ensures ParseWhere(pre + ["where", clause] + post) == ParseSet(pre' + ["set", clause] + post')
  {
    KeywordClause(pre, "where", clause, post);
    KeywordClause(pre', "set", clause, post');
  }

  // ---------------------------------------------------------------------------
  // insert values list
  // ---------------------------------------------------------------------------

  /** One list item: `v.strip().strip('"').strip("'")`. */
  function CleanItem(v: string): string {
    Unquote(Strip(v, Whitespace))
  }

  /** Cleaning only cuts characters off the ends of an item: what remains is
      a contiguous part of it, and every character cut off is whitespace, a
      quote or a parenthesis. */
  lemma CleanItemSlice(v: string)
    ensures IsCut(v, CleanItem(v))
  {
    var w := Strip(v, Whitespace);
    var x := Strip(w, DoubleQuote);
    StripCut(v, Whitespace);
    StripCut(w, DoubleQuote);
    StripCut(x, SingleQuote);
    CutTrans(v, w, x);
    CutTrans(v, x, Strip(x, SingleQuote));
  }

  /** `t` is `s` with only characters of `Edge` cut off its two ends. */
  ghost predicate IsCut(s: string, t: string) {
    exists i, j :: CutAt(s, i, j, Edge) && t == s[i..j]
  }

  lemma StripCut(s: string, cs: set<char>)
    requires cs <= Edge
    ensures IsCut(s, Strip(s, cs))
  {
    var r := Strip(s, cs);
    var i, j :| StrippedAt(s, cs, i, j) && r == s[i..j];
    StrippedCut(s, cs, i, j);
  }

  lemma CutTrans(s: string, t: string, u: string)
    requires IsCut(s, t) && IsCut(t, u)
    ensures IsCut(s, u)
  {
    var i, j :| CutAt(s, i, j, Edge) && t == s[i..j];
    var p, q :| CutAt(t, p, q, Edge) && u == t[p..q];
    CutCompose(s, i, j, p, q);
  }

  /** `s[i..j]` is `s` with only characters of `cs` cut off its two ends. */
  predicate CutAt(s: string, i: int, j: int, cs: set<char>) {
    && 0 <= i <= j <= |s|
    && (forall k :: 0 <= k < i ==> s[k] in cs)
    && (forall k :: j <= k < |s| ==> s[k] in cs)
  }

  lemma StrippedCut(s: string, cs: set<char>, i: int, j: int)
    requires cs <= Edge && StrippedAt(s, cs, i, j)
    ensures CutAt(s, i, j, Edge)
  {
    forall k | 0 <= k < i || j <= k < |s|
      ensures s[k] in Edge
    {
      assert s[k] in cs;
    }
  }

  /** Cutting the ends of a cut gives a cut of the whole. */
  lemma CutCompose(s: string, i: int, j: int, p: int, q: int)
    requires CutAt(s, i, j, Edge) && CutAt(s[i..j], p, q, Edge)
    ensures CutAt(s, i + p, i + q, Edge) && s[i..j][p..q] == s[i + p..i + q]
  {
    var t := s[i..j];
    assert t[p..q] == s[i + p..i + q] by {
      forall k | 0 <= k < q - p
        ensures t[p..q][k] == s[i + p..i + q][k]
      {
        assert t[p + k] == s[i + p + k];
      }
    }
    forall k | 0 <= k < i + p
      ensures s[k] in Edge
    {
      if k >= i {
        assert s[k] == t[k - i];
      }
    }
    forall k | i + q <= k < |s|
      ensures s[k] in Edge
    {
      if k < j {
        assert s[k] == t[k - i];
      }
    }
  }

  /** The values of `insert into <t> values (<v1>, <v2>, ...)`: the text after
      the first `values` in the raw line, trimmed, without its leading `(`s and
      trailing `)`s, split at every comma, each item cleaned. `None` where the
      source raises because the line has no `values` at all. */
  function SplitValues(line: string): (r: Option<seq<string>>)
    ensures r.None? <==> forall k :: 0 <= k ==> !OccursAt(line, "values", k)
    ensures r.Some? ==> |r.value| == Count(After(line, "values").value, ',') + 1
  {
    match After(line, "values")
    case None => None
    case Some(rest) => Some(ListItems(rest))
  }

  /** The items of the text that follows `values`. */
  function ListItems(rest: string): (r: seq<string>)
    ensures |r| == Count(rest, ',') + 1
  {
    var inner := TrimRight(TrimLeft(Strip(rest, Whitespace), {'('}), {')'});
    CountOfTrimmed(rest);
    var items := SplitAll(inner, ',');
    CleanAll(items)
  }

  /** Every item cleaned, in order. */
  function CleanAll(items: seq<string>): seq<string> {
    seq(|items|, k requires 0 <= k < |items| => CleanItem(items[k]))
  }

  /** Trimming whitespace and parentheses never removes a comma. */
  lemma CountOfTrimmed(rest: string)
    ensures Count(TrimRight(TrimLeft(Strip(rest, Whitespace), {'('}), {')'}), ',') == Count(rest, ',')
  {
    var s := Strip(rest, Whitespace);
    CommaIsNotSpace();
    CountOfStrip(rest, Whitespace);
    var l := TrimLeft(s, {'('});
    CountOfTrimLeft(s, {'('});
    CountOfTrimRight(l, {')'});
  }

  lemma CommaIsNotSpace()
    ensures ',' !in Whitespace
  {
  }

  lemma CountOfStrip(s: string, cs: set<char>)
    requires ',' !in cs
    ensures Count(Strip(s, cs), ',') == Count(s, ',')
  {
    var r := Strip(s, cs);
    var i, j :| StrippedAt(s, cs, i, j) && r == s[i..j];
    CountSlices(s, i, j);
    CountNone(s[..i], ',', cs);
    CountNone(s[j..], ',', cs);
  }

  lemma CountOfTrimLeft(s: string, cs: set<char>)
    requires ',' !in cs
    ensures Count(TrimLeft(s, cs), ',') == Count(s, ',')
  {
    var l := TrimLeft(s, cs);
    CountSlices(s, |s| - |l|, |s|);
    CountNone(s[..|s| - |l|], ',', cs);
    assert s[|s|..] == [];
  }

  lemma CountOfTrimRight(s: string, cs: set<char>)
    requires ',' !in cs
    ensures Count(TrimRight(s, cs), ',') == Count(s, ',')
  {
    var r := TrimRight(s, cs);
    CountSlices(s, 0, |r|);
    CountNone(s[|r|..], ',', cs);
    assert s[..0] == [];
  }

  lemma CountSlices(s: string, i: nat, j: nat)
    requires i <= j <= |s|
    ensures Count(s, ',') == Count(s[..i], ',') + Count(s[i..j], ',') + Count(s[j..], ',')
  {
    assert s == s[..i] + s[i..j] + s[j..];
    CountConcat(s[..i] + s[i..j], s[j..], ',');
    CountConcat(s[..i], s[i..j], ',');
  }

  /** A string made only of characters from `cs` holds none of `c`. */
  lemma CountNone(s: string, c: char, cs: set<char>)
    requires c !in cs
    requires forall k :: 0 <= k < |s| ==> s[k] in cs
    ensures Count(s, c) == 0
  {
    CountAbsent(s, c);
  }

  /** An item the values list gives back unchanged: no comma, and neither end
      is whitespace, a quote, or a parenthesis. */
  predicate PlainItem(v: string) {
    && ',' !in v
    && (v == [] || (v[0] !in Edge && v[|v| - 1] !in Edge))
  }

  const Edge: set<char> := Whitespace + DoubleQuote + SingleQuote + {'(', ')'}

  /** How a values list is written: `(v1,v2,...)`. */
  function FormatValues(vs: seq<string>): string
    requires |vs| > 0
  {
    "(" + Join(vs, ',') + ")"
  }

  /** A list written as `values (v1,v2,...)` after a prefix that does not
      itself contain `values` is read back as exactly those items. */
  lemma SplitValuesRoundTrip(prefix: string, vs: seq<string>)
    requires |vs| > 0
    requires forall k :: 0 <= k < |vs| ==> PlainItem(vs[k])
    requires forall k :: 0 <= k < |prefix| ==> !OccursAt(prefix + "values " + FormatValues(vs), "values", k)
    ensures SplitValues(prefix + "values " + FormatValues(vs)) == Some(vs)
  {
    var line := prefix + "values " + FormatValues(vs);
    var j := Join(vs, ',');
    assert line[|prefix|..|prefix| + 6] == "values";
    assert OccursAt(line, "values", |prefix|);
    var f := Find(line, "values");
    assert f == Some(|prefix|);
    var rest := line[|prefix| + 6..];
    assert After(line, "values") == Some(rest);
    assert rest == " " + FormatValues(vs);
    ListItemsRoundTrip(vs);
  }

  /** The items after `values` of a list written `(v1,v2,...)` are the `vi`. */
  lemma ListItemsRoundTrip(vs: seq<string>)
    requires |vs| > 0
    requires forall k :: 0 <= k < |vs| ==> PlainItem(vs[k])
    ensures ListItems(" " + FormatValues(vs)) == vs
  {
    var rest := " " + FormatValues(vs);
    PlainNoParens(vs[0]);
    PlainNoParens(vs[|vs| - 1]);
    InnerOfFormatted(vs);
    assert forall k :: 0 <= k < |vs| ==> ',' !in vs[k];
    SplitAllJoin(vs, ',');
    CleanAllPlain(vs);
  }

  /** Cleaning leaves plain items as they are. */
  lemma CleanAllPlain(vs: seq<string>)
    requires forall k :: 0 <= k < |vs| ==> PlainItem(vs[k])
    ensures CleanAll(vs) == vs
  {
    forall k | 0 <= k < |vs|
      ensures CleanAll(vs)[k] == vs[k]
    {
      PlainItemClean(vs[k]);
    }
  }

  /** Trimming `" (" + j + ")"` down to its inside gives the joined items back. */
  lemma InnerOfFormatted(vs: seq<string>)
    requires |vs| > 0
    requires vs[0] == [] || vs[0][0] != '('
    requires vs[|vs| - 1] == [] || vs[|vs| - 1][|vs[|vs| - 1]| - 1] != ')'
    ensures TrimRight(TrimLeft(Strip(" " + FormatValues(vs), Whitespace), {'('}), {')'}) == Join(vs, ',')
  {
    JoinNoParens(vs);
    InnerOfParens(Join(vs, ','));
  }

  /** The ends of a plain item are not parentheses. */
  lemma PlainNoParens(v: string)
    requires PlainItem(v)
    ensures v == [] || (v[0] != '(' && v[|v| - 1] != ')')
  {
    if v != [] {
      assert v[0] !in Edge && v[|v| - 1] !in Edge;
    }
  }

  /** A join starts with its first piece and ends with its last, so it has no
      parenthesis at the ends when they have none. */
  lemma JoinNoParens(vs: seq<string>)
    requires |vs| > 0
    requires vs[0] == [] || vs[0][0] != '('
    requires vs[|vs| - 1] == [] || vs[|vs| - 1][|vs[|vs| - 1]| - 1] != ')'
    ensures var j := Join(vs, ','); j == [] || (j[0] != '(' && j[|j| - 1] != ')')
  {
    JoinFirst(vs, ',');
    JoinLast(vs, ',');
  }

  lemma InnerOfParens(j: string)
    requires j == [] || (j[0] != '(' && j[|j| - 1] != ')')
    ensures TrimRight(TrimLeft(Strip(" " + ("(" + j + ")"), Whitespace), {'('}), {')'}) == j
  {
    var paren := "(" + j + ")";
    var rest := " " + paren;
    assert rest[1..|rest|] == paren;
    assert rest[0] == ' ' && rest[1] == '(' && rest[|rest| - 1] == ')';
    assert ' ' in Whitespace && '(' !in Whitespace && ')' !in Whitespace;
    StripUnique(rest, Whitespace, 1, |rest|);
    TrimOne(j, '(', ')');
    assert paren == ['('] + j + [')'];
  }

  /** `("(" + t + ")").lstrip("(").rstrip(")")` is `t` when `t` does not
      itself start with `(` or end with `)`. */
  lemma TrimOne(t: string, open: char, close: char)
    requires open != close
    requires t == [] || (t[0] != open && t[|t| - 1] != close)
    ensures TrimRight(TrimLeft([open] + t + [close], {open}), {close}) == t
  {
    DropOpen(t, open, close);
    DropClose(t, close);
  }

  /** One leading `open` goes when what follows does not start with it. */
  lemma DropOpen(t: string, open: char, close: char)
    requires open != close && (t == [] || t[0] != open)
    ensures TrimLeft([open] + t + [close], {open}) == t + [close]
  {
    var u := t + [close];
    assert u[0] == (if t == [] then close else t[0]);
    assert [open] + t + [close] == [open] + u;
    TrimLeftSingle(open, u, {open});
  }

  /** One trailing `close` goes when what precedes does not end with it. */
  lemma DropClose(t: string, close: char)
    requires t == [] || t[|t| - 1] != close
    ensures TrimRight(t + [close], {close}) == t
  {
    TrimRightOne(t, close, {close});
    TrimRightNothing(t, {close});
  }

  /** A plain item comes out of the item cleaning unchanged. */
  lemma PlainItemClean(v: string)
    requires PlainItem(v)
    ensures CleanItem(v) == v
  {
    StripUntouched(v, Whitespace);
    StripUntouched(v, DoubleQuote);
    StripUntouched(v, SingleQuote);
  }

  /** An item written with a blank before it and in quotes of either kind
      comes out as its bare text. */
  lemma CleanQuotedItem(v: string, q: char)
    requires q == '"' || q == '\''
    requires PlainItem(v)
    ensures CleanItem(" " + [q] + v + [q]) == v
  {
    PlainEnds(v);
    var quoted := [q] + v + [q];
    QuoteIsNotSpace(q);
    LeadingBlank(quoted);
    Regroup(" ", [q], v, [q]);
    UnquoteQuoted(v, q);
  }

  lemma Regroup(a: string, b: string, c: string, d: string)
    ensures a + b + c + d == a + (b + c + d)
  {
  }

  lemma QuoteIsNotSpace(q: char)
    requires q == '"' || q == '\''
    ensures q !in Whitespace
  {
  }

  /** One blank before a text whose ends are not whitespace is stripped away. */
  lemma LeadingBlank(s: string)
    requires |s| > 0 && s[0] !in Whitespace && s[|s| - 1] !in Whitespace
    ensures Strip(" " + s, Whitespace) == s
  {
    var w := " " + s;
    assert w[1..|w|] == s;
    assert w[0] == ' ';
    StripUnique(w, Whitespace, 1, |w|);
  }

  /** Either kind of quote around a text without quotes at its ends comes off. */
  lemma UnquoteQuoted(v: string, q: char)
    requires q == '"' || q == '\''
    requires v == [] || (v[0] != '"' && v[0] != '\'' && v[|v| - 1] != '"' && v[|v| - 1] != '\'')
    ensures Unquote([q] + v + [q]) == v
  {
    var quoted := [q] + v + [q];
    if q == '"' {
      StripWrapped(v, '"');
      StripUntouched(v, SingleQuote);
    } else {
      StripUntouched(quoted, DoubleQuote);
      StripWrapped(v, '\'');
    }
  }

  /** The ends of a plain item are neither kind of quote. */
  lemma PlainEnds(v: string)
    requires PlainItem(v)
    ensures v == [] || (v[0] != '"' && v[0] != '\'' && v[|v| - 1] != '"' && v[|v| - 1] != '\'')
  {
  }

  /** The list starts right after the first `values` in the line, so a table
      whose name contains `values` has its list read from inside the name. */
  lemma ValuesInsideName(pre: string, post: string)
    requires 'v' !in pre
    ensures SplitValues(pre + "values" + post) == Some(ListItems(post))
  {
    var line := pre + "values" + post;
    assert line[..|pre|] == pre;
    assert line[|pre|..|pre| + 6] == "values";
    FindFirst(line, "values", |pre|);
    assert line[|pre| + 6..] == post;
  }
}
