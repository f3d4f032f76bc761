/**
 * The DIMACS CNF reader and writer of `dimacs_parser.py`, over the lines of
 * a file: the reader folds the lines into (number of variables, number of
 * clauses, clauses); the writer produces a header line and one line per
 * clause, each ending in a newline as `f.write` emits it.
 */
module Dimacs {
  import opened Wrappers
  import opened Cnf

  /** The triple `parse_dimacs` returns. */
  datatype Dimacs = Dimacs(numVars: int, numClauses: int, clauses: seq<Clause>)

  /** The characters Python's `str.isspace` accepts, which `str.strip` and `str.split` remove. */
  predicate IsSpace(c: char) {
    c == ' ' || '\t' <= c <= '\r' || '\U{1C}' <= c <= '\U{1F}' || c == '\U{85}' || c == '\U{A0}' ||
    c == '\U{1680}' || '\U{2000}' <= c <= '\U{200A}' || c == '\U{2028}' || c == '\U{2029}' ||
    c == '\U{202F}' || c == '\U{205F}' || c == '\U{3000}'
  }

  predicate NoSpace(s: string) {
    forall i :: 0 <= i < |s| ==> !IsSpace(s[i])
  }

  predicate AllSpace(s: string) {
    forall i :: 0 <= i < |s| ==> IsSpace(s[i])
  }

  // ---------------------------------------------------------------------
  // str.strip and str.split
  // ---------------------------------------------------------------------

  /** Drops leading whitespace: what is left is a suffix starting with a non-space, or empty. */
  function LStrip(s: string): (r: string)
    ensures |r| <= |s|
  {
    if s != [] && IsSpace(s[0]) then LStrip(s[1..]) else s
  }

  lemma {:induction false} LStripSpec(s: string)
    ensures var r := LStrip(s);
      r == s[|s| - |r|..] && AllSpace(s[..|s| - |r|]) && (r == [] || !IsSpace(r[0]))
  {
    if s != [] && IsSpace(s[0]) {
      LStripSpec(s[1..]);
      var r := LStrip(s[1..]);
      assert s[..|s| - |r|] == [s[0]] + s[1..][..|s| - 1 - |r|];
    }
  }

  /** Drops trailing whitespace: what is left is a prefix ending in a non-space, or empty. */
  function RStrip(s: string): (r: string)
    ensures |r| <= |s|
  {
    if s != [] && IsSpace(s[|s| - 1]) then RStrip(s[..|s| - 1]) else s
  }

  lemma {:induction false} RStripSpec(s: string)
    ensures var r := RStrip(s);
      r == s[..|r|] && AllSpace(s[|r|..]) && (r == [] || !IsSpace(r[|r| - 1]))
  {
    if s != [] && IsSpace(s[|s| - 1]) {
      RStripSpec(s[..|s| - 1]);
      var r := RStrip(s[..|s| - 1]);
      assert s[|r|..] == s[..|s| - 1][|r|..] + [s[|s| - 1]];
    }
  }

  /** `str.strip()`: the middle of `s` left once the whitespace at both ends is removed. */
  function Strip(s: string): (r: string)
    ensures r == [] || (!IsSpace(r[0]) && !IsSpace(r[|r| - 1]))
  {
    LStripSpec(s);
    RStripSpec(LStrip(s));
    RStrip(LStrip(s))
  }

  /** Stripping cuts off only whitespace, and keeps the middle unchanged. */
  lemma StripSpec(s: string)
    ensures exists i, j :: 0 <= i <= j <= |s| && Strip(s) == s[i..j] && AllSpace(s[..i]) && AllSpace(s[j..])
  {
    var l := LStrip(s);
    var r := RStrip(l);
    LStripSpec(s);
    RStripSpec(l);
    var i := |s| - |l|;
    var j := i + |r|;
    assert s[i..j] == l[..|r|];
    assert s[j..] == l[|r|..];
  }

  /** A line with no whitespace at either end loses only its newline. */
  lemma {:induction false} StripNewline(body: string)
    requires body != [] && !IsSpace(body[0]) && !IsSpace(body[|body| - 1])
    ensures Strip(body + "\n") == body
  {
    var s := body + "\n";
    assert LStrip(s) == s;
    RStripSpec(body);
    assert s[..|s| - 1] == body;
    assert RStrip(s) == RStrip(body);
  }

  /** The leading run of non-space characters. */
  function Word(s: string): (r: string)
    ensures |r| <= |s|
    ensures s != [] && !IsSpace(s[0]) ==> r != []
  {
    if s == [] || IsSpace(s[0]) then [] else [s[0]] + Word(s[1..])
  }

  /** `str.split()` with no separator: the maximal runs of non-space characters, in order. */
  function Split(s: string): (r: seq<string>)
    ensures s != [] && !IsSpace(s[0]) ==> r != []
    decreases |s|
  {
    if s == [] then []
    else if IsSpace(s[0]) then Split(s[1..])
    else
      var w := Word(s);
      [w] + Split(s[|w|..])
  }

  /** The leading run ends at the first space or at the end. */
  lemma {:induction false} WordSpec(s: string)
    ensures var r := Word(s);
      r == s[..|r|] && NoSpace(r) && (|r| < |s| ==> IsSpace(s[|r|]))
  {
    if s != [] && !IsSpace(s[0]) {
      WordSpec(s[1..]);
    }
  }

  /** The words are non-empty and hold no whitespace, and there are none exactly when the line is all whitespace. */
  lemma {:induction false} SplitSpec(s: string)
    ensures forall k :: 0 <= k < |Split(s)| ==> Split(s)[k] != [] && NoSpace(Split(s)[k])
    ensures Split(s) == [] <==> AllSpace(s)
    decreases |s|
  {
    if s != [] {
      if IsSpace(s[0]) {
        SplitSpec(s[1..]);
        assert forall i :: 0 < i < |s| ==> s[i] == s[1..][i - 1];
      } else {
        WordSpec(s);
        SplitSpec(s[|Word(s)|..]);
      }
    }
  }

  /** `' '.join(ws)`. */
  function Join(ws: seq<string>): string {
    if ws == [] then ""
    else if |ws| == 1 then ws[0]
    else ws[0] + " " + Join(ws[1..])
  }

  lemma {:induction false} WordPrefix(w: string, t: string)
    requires NoSpace(w) && (t == [] || IsSpace(t[0]))
    ensures Word(w + t) == w
  {
    if w != [] {
      assert (w + t)[0] == w[0] && (w + t)[1..] == w[1..] + t;
      WordPrefix(w[1..], t);
    } else {
      assert w + t == t;
    }
  }

  /** Splitting a space-joined list of words gives the words back. */
  lemma {:induction false} SplitJoin(ws: seq<string>)
    requires forall k :: 0 <= k < |ws| ==> ws[k] != [] && NoSpace(ws[k])
    ensures Split(Join(ws)) == ws
  {
    if |ws| == 1 {
      WordPrefix(ws[0], "");
      assert ws[0] + "" == ws[0];
      assert ws[0][|ws[0]|..] == [];
    } else if |ws| > 1 {
      var rest := Join(ws[1..]);
      var s := ws[0] + (" " + rest);
      assert Join(ws) == s;
      WordPrefix(ws[0], " " + rest);
      assert s[|ws[0]|..] == " " + rest;
      assert (" " + rest)[1..] == rest;
      assert Split(" " + rest) == Split(rest);
      SplitJoin(ws[1..]);
      assert ws == [ws[0]] + ws[1..];
    }
  }

  /** Joining then appending one more word is joining the longer list. */
  lemma {:induction false} JoinSnoc(ws: seq<string>, w: string)
    requires ws != []
    ensures Join(ws + [w]) == Join(ws) + " " + w
  {
    if |ws| > 1 {
      JoinSnoc(ws[1..], w);
      assert (ws + [w])[1..] == ws[1..] + [w];
    }
  }

  /** The joined line starts with the first word's first character and ends with the last word's last one. */
  lemma {:induction false} JoinEnds(ws: seq<string>)
    requires ws != [] && forall k :: 0 <= k < |ws| ==> ws[k] != []
    ensures Join(ws) != [] && Join(ws)[0] == ws[0][0]
    ensures Join(ws)[|Join(ws)| - 1] == ws[|ws| - 1][|ws[|ws| - 1]| - 1]
  {
    if |ws| > 1 {
      JoinEnds(ws[1..]);
    }
  }

  // ---------------------------------------------------------------------
  // int() and str() on decimal integers
  // ---------------------------------------------------------------------

  predicate IsDigit(c: char) {
    '0' <= c <= '9'
  }

  /**
   * The digit part `int()` accepts in base 10: digits, with single
   * underscores allowed between two digits.
   */
  predicate DigitGroups(s: string) {
    s != [] && IsDigit(s[0]) && IsDigit(s[|s| - 1]) &&
    (forall i :: 0 <= i < |s| ==> DigitOrUnderscore(s[i])) &&
    (forall i :: 0 <= i < |s| - 1 && s[i] == '_' ==> s[i + 1] != '_')
  }

  predicate DigitOrUnderscore(c: char) {
    IsDigit(c) || c == '_'
  }

  /** The value of the digits of `s`, most significant first, skipping underscores. */
  function DecimalValue(s: string): nat
    requires forall i :: 0 <= i < |s| ==> DigitOrUnderscore(s[i])
  {
    if s == [] then 0
    else
      var c := s[|s| - 1];
      assert DigitOrUnderscore(c);
      var v := DecimalValue(s[..|s| - 1]);
      if c == '_' then v else 10 * v + ((c as int) - ('0' as int))
  }

  /** `int(tok)` in base 10: an optional sign followed by digit groups, or `None` where Python raises. */
  function ParseInt(tok: string): Option<int> {
    if tok != [] && (tok[0] == '-' || tok[0] == '+') then
      var body := tok[1..];
      if DigitGroups(body) then
        Some(if tok[0] == '-' then -(DecimalValue(body) as int) else DecimalValue(body))
      else None
    else if DigitGroups(tok) then Some(DecimalValue(tok))
    else None
  }

  /** The message of the `ValueError` `int()` raises for a token that is not an integer. */
  function IntError(tok: string): string {
    "invalid literal for int() with base 10: '" + tok + "'"
  }

  function DigitChar(d: nat): char
    requires d < 10
  {
    (('0' as int) + d) as char
  }

  /** `str(n)` for a natural number: its decimal digits with no leading zero. */
  function NatToString(n: nat): (r: string)
    ensures r != [] && forall i :: 0 <= i < |r| ==> IsDigit(r[i])
    ensures DecimalValue(r) == n
  {
    if n < 10 then
      assert DecimalValue([DigitChar(n)]) == DecimalValue([]) * 10 + n;
      [DigitChar(n)]
    else
      var r := NatToString(n / 10) + [DigitChar(n % 10)];
      assert r[..|r| - 1] == NatToString(n / 10);
      r
  }

  /** `str(i)` for an integer. */
  function IntToString(i: int): string {
    if i < 0 then "-" + NatToString(-i) else NatToString(i)
  }

  /** The text of an integer is one token, starting with `-` or a digit and ending with a digit. */
  lemma IntToStringShape(i: int)
    ensures var s := IntToString(i);
      s != [] && NoSpace(s) && (s[0] == '-' || IsDigit(s[0])) && IsDigit(s[|s| - 1])
  {
  }

  /** `int(str(i)) == i`. */
  lemma ParseIntToString(i: int)
    ensures ParseInt(IntToString(i)) == Some(i)
  {
    var s := IntToString(i);
    if i < 0 {
      assert s[1..] == NatToString(-i);
    }
  }

  /** `[int(x) for x in toks]`: the first token that is not an integer raises. */
  function ParseInts(toks: seq<string>): (r: Result<seq<int>>)
    ensures r.Ok? ==> |r.value| == |toks|
  {
    if toks == [] then Ok([])
    else
      match ParseInt(toks[0])
      case None => Err(IntError(toks[0]))
      case Some(v) =>
        var rest := ParseInts(toks[1..]);
        if rest.Err? then Err(rest.message) else Ok([v] + rest.value)
  }

  /** The literals are read exactly when every token is an integer, and then each is its token's value. */
  lemma {:induction false} ParseIntsSpec(toks: seq<string>)
    ensures ParseInts(toks).Ok? <==> forall k :: 0 <= k < |toks| ==> ParseInt(toks[k]).Some?
    ensures ParseInts(toks).Ok? ==> forall k :: 0 <= k < |toks| ==> ParseInts(toks).value[k] == ParseInt(toks[k]).value
  {
    if toks != [] {
      ParseIntsSpec(toks[1..]);
      assert forall k :: 0 < k < |toks| ==> toks[k] == toks[1..][k - 1];
    }
  }

  // ---------------------------------------------------------------------
  // parse_dimacs
  // ---------------------------------------------------------------------

  /** The `ValueError` message for a malformed problem line. */
  function ProblemError(line: string): string {
    "Invalid problem line: " + line
  }

  /** The `ValueError` message for a clause line whose last literal is not 0. */
  function TerminatorError(line: string): string {
    "Clause must end with 0: " + line
  }

  /** The line contributes nothing: blank after stripping, or a comment. */
  predicate Skipped(raw: string) {
    var line := Strip(raw);
    line == [] || line[0] == 'c'
  }

  /** The line is a problem line: after stripping it starts with `p`. */
  predicate IsHeader(raw: string) {
    var line := Strip(raw);
    line != [] && line[0] == 'p'
  }

  /** One pass of the `for line in f` loop of `parse_dimacs`. */
  function Step(st: Dimacs, raw: string): Result<Dimacs> {
    var line := Strip(raw);
    if line == [] || line[0] == 'c' then Ok(st)
    else if line[0] == 'p' then StepHeader(st, line)
    else StepClause(st, line)
  }

  /** A stripped problem line: four tokens with `cnf` second, whose last two are the counts. */
  function StepHeader(st: Dimacs, line: string): Result<Dimacs> {
    var parts := Split(line);
    if |parts| != 4 || parts[1] != "cnf" then Err(ProblemError(line))
    else
      match ParseInt(parts[2])
      case None => Err(IntError(parts[2]))
      case Some(nv) =>
        match ParseInt(parts[3])
        case None => Err(IntError(parts[3]))
        case Some(nc) => Ok(st.(numVars := nv, numClauses := nc))
  }

  /** A stripped clause line: integers ending in 0; the others form the clause, appended when non-empty. */
  function StepClause(st: Dimacs, line: string): Result<Dimacs>
    requires line != [] && !IsSpace(line[0])
  {
    var lits := ParseInts(Split(line));
    if lits.Err? then Err(lits.message)
    else if lits.value[|lits.value| - 1] != 0 then Err(TerminatorError(line))
    else
      var clause := lits.value[..|lits.value| - 1];
      if clause != [] then Ok(st.(clauses := st.clauses + [clause])) else Ok(st)
  }

  /** The remaining lines folded into the state, stopping at the first error. */
  function ParseFrom(lines: seq<string>, st: Dimacs): Result<Dimacs> {
    if lines == [] then Ok(st)
    else
      match Step(st, lines[0])
      case Err(e) => Err(e)
      case Ok(next) => ParseFrom(lines[1..], next)
  }

  /** What `parse_dimacs` returns for a file with these lines, or the message it raises. */
  function Parse(lines: seq<string>): Result<Dimacs> {
    ParseFrom(lines, Dimacs(0, 0, []))
  }

  /** `parse_dimacs` over the file's lines. */
  method ParseDimacs(lines: seq<string>) returns (r: Result<Dimacs>)
    ensures r == Parse(lines)
  {
    var numVars := 0;
    var numClauses := 0;
    var clauses: seq<Clause> := [];
    var i := 0;
    while i < |lines|
      invariant 0 <= i <= |lines|
      invariant ParseFrom(lines[i..], Dimacs(numVars, numClauses, clauses)) == Parse(lines)
    {
      assert lines[i..][0] == lines[i] && lines[i..][1..] == lines[i + 1..];
      var line := Strip(lines[i]);
      if line == [] || line[0] == 'c' {
        i := i + 1;
        continue;
      }
      if line[0] == 'p' {
        var parts := Split(line);
        if |parts| != 4 || parts[1] != "cnf" {
          return Err(ProblemError(line));
        }
        var nv := ParseInt(parts[2]);
        if nv.None? {
          return Err(IntError(parts[2]));
        }
        var nc := ParseInt(parts[3]);
        if nc.None? {
          return Err(IntError(parts[3]));
        }
        numVars, numClauses := nv.value, nc.value;
        i := i + 1;
        continue;
      }
      var literals := ParseInts(Split(line));
      if literals.Err? {
        return Err(literals.message);
      }
      if literals.value[|literals.value| - 1] != 0 {
        return Err(TerminatorError(line));
      }
      var clause := literals.value[..|literals.value| - 1];
      if clause != [] {
        clauses := clauses + [clause];
      }
      i := i + 1;
    }
    r := Ok(Dimacs(numVars, numClauses, clauses));
  }

  /** Folding a concatenation folds the first part, then the second from where the first left off. */
  lemma {:induction false} ParseAppend(xs: seq<string>, ys: seq<string>, st: Dimacs)
    ensures ParseFrom(xs + ys, st) ==
      match ParseFrom(xs, st)
      case Err(e) => Err(e)
      case Ok(mid) => ParseFrom(ys, mid)
  {
    if xs != [] {
      assert (xs + ys)[0] == xs[0] && (xs + ys)[1..] == xs[1..] + ys;
      match Step(st, xs[0])
      case Err(_) =>
      case Ok(next) => ParseAppend(xs[1..], ys, next);
    } else {
      assert xs + ys == ys;
    }
  }

  /** A line that parses moves the fold on to the rest of the file. */
  lemma ParseFromHead(l: string, rest: seq<string>, st: Dimacs)
    ensures ParseFrom([l] + rest, st) ==
      if Step(st, l).Err? then Err(Step(st, l).message) else ParseFrom(rest, Step(st, l).value)
  {
    assert ([l] + rest)[0] == l && ([l] + rest)[1..] == rest;
  }

  lemma ParseFromOk(l: string, rest: seq<string>, st: Dimacs, next: Dimacs)
    requires Step(st, l) == Ok(next)
    ensures ParseFrom([l] + rest, st) == ParseFrom(rest, next)
  {
    assert ([l] + rest)[0] == l && ([l] + rest)[1..] == rest;
  }

  /** The lines that are neither blank nor comments, in order. */
  function Kept(lines: seq<string>): (r: seq<string>)
    ensures forall k :: 0 <= k < |r| ==> !Skipped(r[k]) && r[k] in lines
  {
    if lines == [] then []
    else (if Skipped(lines[0]) then [] else [lines[0]]) + Kept(lines[1..])
  }

  /** Blank lines and comment lines contribute nothing: dropping them does not change the result. */
  lemma {:induction false} ParseKept(lines: seq<string>, st: Dimacs)
    ensures ParseFrom(lines, st) == ParseFrom(Kept(lines), st)
  {
    if lines != [] {
      var l, rest := lines[0], lines[1..];
      assert lines == [l] + rest;
      ParseFromHead(l, rest, st);
      if Skipped(l) {
        assert Kept(lines) == Kept(rest);
        assert Step(st, l) == Ok(st);
        ParseKept(rest, st);
      } else {
        assert Kept(lines) == [l] + Kept(rest);
        ParseFromHead(l, Kept(rest), st);
        match Step(st, l)
        case Err(_) =>
        case Ok(next) => ParseKept(rest, next);
      }
    }
  }

  /** Every clause the parser returns is non-empty. */
  lemma {:induction false} ParseFromNonEmpty(lines: seq<string>, st: Dimacs)
    requires forall k :: 0 <= k < |st.clauses| ==> st.clauses[k] != []
    requires ParseFrom(lines, st).Ok?
    ensures var d := ParseFrom(lines, st).value; forall k :: 0 <= k < |d.clauses| ==> d.clauses[k] != []
  {
    if lines != [] {
      var next := Step(st, lines[0]).value;
      assert forall k :: 0 <= k < |next.clauses| ==> next.clauses[k] != [];
      ParseFromNonEmpty(lines[1..], next);
    }
  }

  lemma ParseNonEmpty(lines: seq<string>)
    requires Parse(lines).Ok?
    ensures forall c :: c in Parse(lines).value.clauses ==> c != []
  {
    ParseFromNonEmpty(lines, Dimacs(0, 0, []));
  }

  /** Lines that are not problem lines leave the two counts alone and only append clauses. */
  lemma {:induction false} NoHeaderKeepsCounts(lines: seq<string>, st: Dimacs)
    requires forall k :: 0 <= k < |lines| ==> !IsHeader(lines[k])
    requires ParseFrom(lines, st).Ok?
    ensures var d := ParseFrom(lines, st).value;
      d.numVars == st.numVars && d.numClauses == st.numClauses &&
      |st.clauses| <= |d.clauses| && d.clauses[..|st.clauses|] == st.clauses
  {
    if lines != [] {
      var next := Step(st, lines[0]).value;
      assert next.numVars == st.numVars && next.numClauses == st.numClauses;
      assert next.clauses == st.clauses || next.clauses[..|st.clauses|] == st.clauses;
      NoHeaderKeepsCounts(lines[1..], next);
      var d := ParseFrom(lines, st).value;
      assert d.clauses[..|st.clauses|] == d.clauses[..|next.clauses|][..|st.clauses|];
    }
  }

  /** A file without a problem line parses to 0 variables and 0 clauses declared. */
  lemma ParseNoHeader(lines: seq<string>)
    requires forall k :: 0 <= k < |lines| ==> !IsHeader(lines[k])
    requires Parse(lines).Ok?
    ensures Parse(lines).value.numVars == 0 && Parse(lines).value.numClauses == 0
  {
    NoHeaderKeepsCounts(lines, Dimacs(0, 0, []));
  }

  /**
   * The last problem line wins: it splits into four tokens with `cnf`
   * second, and its third and fourth tokens are the counts returned.
   */
  lemma HeaderWins(xs: seq<string>, h: string, ys: seq<string>)
    requires IsHeader(h)
    requires forall k :: 0 <= k < |ys| ==> !IsHeader(ys[k])
    requires Parse(xs + [h] + ys).Ok?
    ensures var parts := Split(Strip(h)); var d := Parse(xs + [h] + ys).value;
      |parts| == 4 && parts[1] == "cnf" &&
      ParseInt(parts[2]) == Some(d.numVars) && ParseInt(parts[3]) == Some(d.numClauses)
  {
    var init := Dimacs(0, 0, []);
    ParseAppend(xs, [h] + ys, init);
    assert xs + [h] + ys == xs + ([h] + ys);
    var mid := ParseFrom(xs, init).value;
    assert ([h] + ys)[0] == h && ([h] + ys)[1..] == ys;
    var next := Step(mid, h).value;
    NoHeaderKeepsCounts(ys, next);
  }

  /** A problem line without four tokens or without `cnf` second raises, once the lines before it parse. */
  lemma BadHeader(xs: seq<string>, h: string, ys: seq<string>)
    requires Parse(xs).Ok? && IsHeader(h)
    requires var parts := Split(Strip(h)); |parts| != 4 || parts[1] != "cnf"
    ensures Parse(xs + [h] + ys) == Err(ProblemError(Strip(h)))
  {
    var init := Dimacs(0, 0, []);
    ParseAppend(xs, [h] + ys, init);
    assert xs + [h] + ys == xs + ([h] + ys);
    assert ([h] + ys)[0] == h;
  }

  /** A clause line of integers whose last is not 0 raises, once the lines before it parse. */
  lemma MissingTerminator(xs: seq<string>, l: string, ys: seq<string>)
    requires Parse(xs).Ok? && !Skipped(l) && !IsHeader(l)
    requires var lits := ParseInts(Split(Strip(l))); lits.Ok? && lits.value[|lits.value| - 1] != 0
    ensures Parse(xs + [l] + ys) == Err(TerminatorError(Strip(l)))
  {
    var init := Dimacs(0, 0, []);
    ParseAppend(xs, [l] + ys, init);
    assert xs + [l] + ys == xs + ([l] + ys);
    assert ([l] + ys)[0] == l;
  }

  /** A clause line with a token that is not an integer raises `int()`'s error for the first such token. */
  lemma BadLiteral(xs: seq<string>, l: string, ys: seq<string>, k: nat)
    requires Parse(xs).Ok? && !Skipped(l) && !IsHeader(l)
    requires var toks := Split(Strip(l));
      k < |toks| && ParseInt(toks[k]).None? && forall j :: 0 <= j < k ==> ParseInt(toks[j]).Some?
    ensures Parse(xs + [l] + ys) == Err(IntError(Split(Strip(l))[k]))
  {
    var init := Dimacs(0, 0, []);
    ParseAppend(xs, [l] + ys, init);
    assert xs + [l] + ys == xs + ([l] + ys);
    assert ([l] + ys)[0] == l;
    FirstBadToken(Split(Strip(l)), k);
  }

  lemma {:induction false} FirstBadToken(toks: seq<string>, k: nat)
    requires k < |toks| && ParseInt(toks[k]).None? && forall j :: 0 <= j < k ==> ParseInt(toks[j]).Some?
    ensures ParseInts(toks) == Err(IntError(toks[k]))
  {
    if k > 0 {
      assert forall j :: 0 <= j < k - 1 ==> toks[1..][j] == toks[j + 1];
      FirstBadToken(toks[1..], k - 1);
    }
  }

  // ---------------------------------------------------------------------
  // write_dimacs
  // ---------------------------------------------------------------------

  /** `f"p cnf {num_vars} {m}\n"`. */
  function HeaderLine(numVars: int, m: int): string {
    "p cnf " + IntToString(numVars) + " " + IntToString(m) + "\n"
  }

  /** `str(lit)` for each literal of the clause. */
  function LitStrings(c: Clause): (r: seq<string>)
    ensures |r| == |c|
  {
    seq(|c|, k requires 0 <= k < |c| => IntToString(c[k]))
  }

  /** `' '.join(str(lit) for lit in clause) + ' 0\n'`. */
  function ClauseLine(c: Clause): string {
    Join(LitStrings(c)) + " 0\n"
  }

  function ClauseLines(cs: seq<Clause>): (r: seq<string>)
    ensures |r| == |cs|
  {
    if cs == [] then [] else [ClauseLine(cs[0])] + ClauseLines(cs[1..])
  }

  lemma {:induction false} ClauseLinesSnoc(cs: seq<Clause>, c: Clause)
    ensures ClauseLines(cs + [c]) == ClauseLines(cs) + [ClauseLine(c)]
  {
    if cs != [] {
      assert (cs + [c])[1..] == cs[1..] + [c];
      ClauseLinesSnoc(cs[1..], c);
    }
  }

  lemma ClauseLinesPrefix(cs: seq<Clause>, i: nat)
    requires i < |cs|
    ensures ClauseLines(cs[..i + 1]) == ClauseLines(cs[..i]) + [ClauseLine(cs[i])]
  {
    assert cs[..i + 1] == cs[..i] + [cs[i]];
    ClauseLinesSnoc(cs[..i], cs[i]);
  }

  /** The lines `write_dimacs` writes. */
  function Written(numVars: int, cs: seq<Clause>): seq<string> {
    [HeaderLine(numVars, |cs|)] + ClauseLines(cs)
  }

  /** `write_dimacs`, producing the file's lines instead of writing them. */
  method WriteDimacs(numVars: int, clauses: seq<Clause>) returns (lines: seq<string>)
    ensures lines == Written(numVars, clauses)
  {
    lines := [HeaderLine(numVars, |clauses|)];
    for i := 0 to |clauses|
      invariant lines == [HeaderLine(numVars, |clauses|)] + ClauseLines(clauses[..i])
    {
      ClauseLinesPrefix(clauses, i);
      lines := lines + [ClauseLine(clauses[i])];
    }
    assert clauses[..|clauses|] == clauses;
  }

  /** Reading a written header line sets both counts to the values written. */
  lemma HeaderStep(st: Dimacs, n: int, m: int)
    ensures Step(st, HeaderLine(n, m)) == Ok(st.(numVars := n, numClauses := m))
  {
    HeaderLineWords(n, m);
    var body := Strip(HeaderLine(n, m));
    assert Step(st, HeaderLine(n, m)) == StepHeader(st, body);
    ParseIntToString(n);
    ParseIntToString(m);
  }

  lemma JoinFour(a: string, b: string, c: string, d: string)
    ensures Join([a, b, c, d]) == a + " " + b + " " + c + " " + d
  {
    var ws := [a, b, c, d];
    assert ws[1..][1..] == [c, d] && ws[1..] == [b, c, d];
    assert Join([c, d]) == c + " " + d by {
      assert [c, d][1..] == [d];
    }
  }

  /** A written header line strips to `p cnf N M`, which splits into those four words. */
  lemma HeaderLineWords(n: int, m: int)
    ensures var body := Strip(HeaderLine(n, m));
      body != [] && body[0] == 'p' && Split(body) == ["p", "cnf", IntToString(n), IntToString(m)]
  {
    var ns, ms := IntToString(n), IntToString(m);
    IntToStringShape(n);
    IntToStringShape(m);
    var ws := ["p", "cnf", ns, ms];
    var body := "p cnf " + ns + " " + ms;
    JoinFour("p", "cnf", ns, ms);
    assert "p" + " " + "cnf" + " " + ns + " " + ms == body;
    assert HeaderLine(n, m) == body + "\n";
    StripNewline(body);
    assert NoSpace("p") && NoSpace("cnf");
    SplitJoin(ws);
  }

  /** The words of a written clause line: each literal's text, then `0`. */
  function ClauseWords(c: Clause): (ws: seq<string>)
    ensures |ws| == |c| + 1
    ensures ws[|c|] == IntToString(0)
  {
    assert IntToString(0) == "0";
    LitStrings(c) + ["0"]
  }

  lemma ClauseWordsShape(c: Clause)
    ensures forall k :: 0 <= k < |ClauseWords(c)| ==> ClauseWords(c)[k] != [] && NoSpace(ClauseWords(c)[k])
  {
    var ws := ClauseWords(c);
    forall k | 0 <= k < |ws| ensures ws[k] != [] && NoSpace(ws[k]) {
      if k < |c| {
        IntToStringShape(c[k]);
      }
    }
  }

  /** A written clause line strips to its words joined by spaces, starting with `-` or a digit. */
  lemma ClauseLineStrip(c: Clause)
    ensures var body := Strip(ClauseLine(c));
      body == Join(ClauseWords(c)) && body != [] && (body[0] == '-' || IsDigit(body[0]))
  {
    var ws := ClauseWords(c);
    ClauseWordsShape(c);
    var body := Join(ws);
    if c == [] {
      assert ws == ["0"];
      assert ClauseLine(c) == " 0\n";
      assert LStrip(" 0\n") == LStrip("0\n") == "0\n";
      assert "0\n"[..1] == "0";
      assert Strip(ClauseLine(c)) == "0";
    } else {
      JoinSnoc(LitStrings(c), "0");
      assert ClauseLine(c) == body + "\n";
      JoinEnds(ws);
      IntToStringShape(c[0]);
      StripNewline(body);
    }
  }

  /** The words of a written clause line read back as the clause followed by 0. */
  lemma ClauseWordsParse(c: Clause)
    ensures ParseInts(ClauseWords(c)) == Ok(c + [0])
  {
    var ws := ClauseWords(c);
    var lits := ParseInts(ws);
    ParseIntsSpec(ws);
    var expected := c + [0];
    forall k | 0 <= k < |ws| ensures ParseInt(ws[k]) == Some(expected[k]) {
      assert ws[k] == IntToString(expected[k]);
      ParseIntToString(expected[k]);
    }
    assert lits.value == expected;
  }

  /** Reading a written clause line appends the clause, unless it is empty. */
  lemma ClauseStep(st: Dimacs, c: Clause)
    ensures Step(st, ClauseLine(c)) == Ok(Appended(st, c))
  {
    ClauseLineStrip(c);
    var body := Strip(ClauseLine(c));
    assert Step(st, ClauseLine(c)) == StepClause(st, body);
    ClauseWordsShape(c);
    SplitJoin(ClauseWords(c));
    ClauseWordsParse(c);
    assert (c + [0])[..|c|] == c;
  }

  /** Every written clause line is read back in order, dropping only the empty clauses. */
  lemma ParseClauseLines(cs: seq<Clause>, st: Dimacs)
    ensures ParseFrom(ClauseLines(cs), st) == Ok(st.(clauses := st.clauses + NonEmpty(cs)))
  {
    var lines := ClauseLines(cs);
    forall k, s | 0 <= k < |lines| ensures Step(s, lines[k]) == Ok(Appended(s, cs[k])) {
      ClauseLinesAt(cs, k);
      ClauseStep(s, cs[k]);
    }
    ParseAppending(lines, cs, st);
  }

  lemma {:induction false} ClauseLinesAt(cs: seq<Clause>, k: nat)
    requires k < |cs|
    ensures ClauseLines(cs)[k] == ClauseLine(cs[k])
  {
    if k > 0 {
      ClauseLinesAt(cs[1..], k - 1);
    }
  }

  /** The state after reading one clause: the clause appended unless it is empty. */
  function Appended(st: Dimacs, c: Clause): Dimacs {
    if c != [] then st.(clauses := st.clauses + [c]) else st
  }

  lemma AppendedNonEmpty(st: Dimacs, cs: seq<Clause>)
    requires cs != []
    ensures Appended(st, cs[0]).clauses + NonEmpty(cs[1..]) == st.clauses + NonEmpty(cs)
  {
    assert NonEmpty(cs) == (if cs[0] == [] then [] else [cs[0]]) + NonEmpty(cs[1..]);
  }

  /** Lines that each append their clause append the non-empty ones in order. */
  lemma {:induction false} ParseAppending(lines: seq<string>, cs: seq<Clause>, st: Dimacs)
    requires |lines| == |cs|
    requires forall k, s :: 0 <= k < |lines| ==> Step(s, lines[k]) == Ok(Appended(s, cs[k]))
    ensures ParseFrom(lines, st) == Ok(st.(clauses := st.clauses + NonEmpty(cs)))
  {
    if cs != [] {
      var next := Appended(st, cs[0]);
      assert Step(st, lines[0]) == Ok(next);
      assert forall k, s :: 0 <= k < |lines| - 1 ==> Step(s, lines[1..][k]) == Ok(Appended(s, cs[1..][k])) by {
        assert forall k :: 0 <= k < |lines| - 1 ==> lines[1..][k] == lines[k + 1] && cs[1..][k] == cs[k + 1];
      }
      ParseAppending(lines[1..], cs[1..], next);
      AppendedNonEmpty(st, cs);
    } else {
      assert st.clauses + [] == st.clauses;
    }
  }

  /**
   * The declared clause count is echoed, not checked: a header followed by
   * clause lines parses to the header's counts whatever the number of lines.
   */
  lemma ParseEchoesHeader(n: int, m: int, cs: seq<Clause>)
    ensures Parse([HeaderLine(n, m)] + ClauseLines(cs)) == Ok(Dimacs(n, m, NonEmpty(cs)))
  {
    var lines := [HeaderLine(n, m)] + ClauseLines(cs);
    assert lines[0] == HeaderLine(n, m) && lines[1..] == ClauseLines(cs);
    HeaderStep(Dimacs(0, 0, []), n, m);
    ParseClauseLines(cs, Dimacs(n, m, []));
    assert [] + NonEmpty(cs) == NonEmpty(cs);
  }

  /** The write-then-read round trip: the variable count, the clause count and the non-empty clauses in order. */
  lemma WriteParse(n: int, cs: seq<Clause>)
    ensures Parse(Written(n, cs)) == Ok(Dimacs(n, |cs|, NonEmpty(cs)))
  {
    ParseEchoesHeader(n, |cs|, cs);
  }

}
