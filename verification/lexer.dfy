/** The lexer: text to tokens (src/calc.rs, src/interpreter/lexer.rs).

    The original scans and converts in one loop. Here scanning is stated
    on its own, as the split of a string into lexemes (`Lexemes`), and
    conversion maps each lexeme to a token (`ToToken`); `Tokenize` is the
    original's loop and is proved to compute exactly `Lex`, the composition
    of the two. */
module Lexer {
  import opened Wrappers
  import opened I32
  import opened Errors

  datatype Token =
    | Add | Sub | Mul | Div | Asgn | OpenBlock | CloseBlock | DecVar
    | Int(val: i32)
    | Sym(name: string)

  predicate IsArith(t: Token) {
    t.Add? || t.Sub? || t.Mul? || t.Div?
  }

  /** The hand-written `Clone` of the original, including its slip:
      `CloseBlock` clones to `OpenBlock`. */
  function CloneToken(t: Token): (c: Token)
    ensures !t.CloseBlock? ==> c == t
    ensures !c.CloseBlock?
  {
    match t
    case Add => Add
    case Sub => Sub
    case Mul => Mul
    case Div => Div
    case Asgn => Asgn
    case OpenBlock => OpenBlock
    case CloseBlock => OpenBlock
    case DecVar => DecVar
    case Int(v) => Int(v)
    case Sym(name) => Sym(name)
  }

  /** The clone the original evidently intended: every variant to itself. */
  function CloneTokenFixed(t: Token): (c: Token)
    ensures c == t
  {
    match t
    case Add => Add
    case Sub => Sub
    case Mul => Mul
    case Div => Div
    case Asgn => Asgn
    case OpenBlock => OpenBlock
    case CloseBlock => CloseBlock
    case DecVar => DecVar
    case Int(v) => Int(v)
    case Sym(name) => Sym(name)
  }

  lemma CloneKeepsAllButClose(t: Token)
    ensures CloneToken(t) == t <==> !t.CloseBlock?
    ensures t.CloseBlock? ==> CloneToken(t) == OpenBlock
  {
  }

  /** The slip, exhibited: a closing bracket's clone is an opening one. */
  lemma CloneOfCloseIsOpen()
    ensures CloneToken(CloseBlock) != CloseBlock
    ensures CloneToken(CloseBlock) == OpenBlock
  {
  }

  lemma CloneFixedIsIdentity(t: Token)
    ensures CloneTokenFixed(t) == t
  {
  }

  /** The parser clones only operator tokens, on which both clones agree. */
  lemma ClonesAgreeOnOperators(t: Token)
    ensures IsArith(t) ==> CloneToken(t) == CloneTokenFixed(t) == t
    ensures CloneToken(t) != CloneTokenFixed(t) <==> t.CloseBlock?
  {
  }

  // ---------------------------------------------------------------------
  // Character classes and decimal numerals

  predicate IsDigit(c: char) {
    '0' <= c <= '9'
  }

  /** The characters that form a token on their own. */
  predicate IsPunct(c: char) {
    c == '+' || c == '-' || c == '*' || c == '/' || c == '=' || c == '[' || c == ']'
  }

  function PunctToken(c: char): Token
    requires IsPunct(c)
  {
    match c
    case '+' => Add
    case '-' => Sub
    case '*' => Mul
    case '/' => Div
    case '=' => Asgn
    case '[' => OpenBlock
    case ']' => CloseBlock
  }

  predicate AllDigits(d: string) {
    forall i | 0 <= i < |d| :: IsDigit(d[i])
  }

  predicate NoSpace(w: string) {
    forall i | 0 <= i < |w| :: w[i] != ' '
  }

  function DigitValue(c: char): (k: nat)
    requires IsDigit(c)
    ensures k < 10
  {
    c as int - '0' as int
  }

  function DigitChar(k: nat): (c: char)
    requires k < 10
    ensures IsDigit(c) && DigitValue(c) == k
  {
    ('0' as int + k) as char
  }

  /** The value `str::parse` gives a run of ASCII digits, before its range
      check: most significant digit first, leading zeros allowed. */
  function DecimalValue(d: string): (v: nat)
    requires AllDigits(d)
    ensures v < Pow10(|d|)
    decreases |d|
  {
    if d == [] then 0
    else
      var w := DecimalValue(d[..|d| - 1]);
      assert w * 10 + 9 < Pow10(|d|) by {
        assert w + 1 <= Pow10(|d| - 1);
        assert (w + 1) * 10 <= Pow10(|d| - 1) * 10;
      }
      w * 10 + DigitValue(d[|d| - 1])
  }

  /** `10` to the power `n`: an `n`-digit string has a value below it. */
  function Pow10(n: nat): nat {
    if n == 0 then 1 else 10 * Pow10(n - 1)
  }

  /** Leading zeros do not change the value, as `str::parse` accepts
      them: `007` is 7. */
  lemma {:induction false} DecimalValueLeadingZero(d: string)
    requires AllDigits(d)
    ensures AllDigits("0" + d) && DecimalValue("0" + d) == DecimalValue(d)
    decreases |d|
  {
    var z := "0" + d;
    if d != [] {
      assert z[..|z| - 1] == "0" + d[..|d| - 1];
      assert z[|z| - 1] == d[|d| - 1];
      DecimalValueLeadingZero(d[..|d| - 1]);
    } else {
      assert z[..|z| - 1] == [];
    }
  }

  /** The shortest decimal numeral of a natural number. */
  function Numeral(v: nat): (d: string)
    ensures |d| > 0 && AllDigits(d)
  {
    if v < 10 then [DigitChar(v)] else Numeral(v / 10) + [DigitChar(v % 10)]
  }

  lemma {:induction false} NumeralValue(v: nat)
    ensures DecimalValue(Numeral(v)) == v
  {
    if v >= 10 {
      var d := Numeral(v);
      assert d[..|d| - 1] == Numeral(v / 10);
      NumeralValue(v / 10);
    }
  }

  // ---------------------------------------------------------------------
  // Scanning

  /** One scanned unit: a digit run, a one-character token, or a name. */
  datatype Lexeme = Digits(text: string) | Punct(c: char) | Word(text: string)

  predicate WellFormed(l: Lexeme) {
    match l
    case Digits(d) => |d| > 0 && AllDigits(d)
    case Punct(c) => IsPunct(c)
    case Word(w) => |w| > 0 && NoSpace(w) && !IsDigit(w[0]) && !IsPunct(w[0])
  }

  function Text(l: Lexeme): string {
    match l
    case Digits(d) => d
    case Punct(c) => [c]
    case Word(w) => w
  }

  /** Length of the maximal run of digits at the front of `s`. */
  function DigitRunLen(s: string): (n: nat)
    ensures n <= |s|
    ensures AllDigits(s[..n])
    ensures n < |s| ==> !IsDigit(s[n])
  {
    if s != [] && IsDigit(s[0]) then
      var m := DigitRunLen(s[1..]);
      assert s[..m + 1] == [s[0]] + s[1..][..m];
      1 + m
    else 0
  }

  /** Length of the front of `s` up to, not including, its first space. */
  function WordLen(s: string): (n: nat)
    ensures n <= |s|
    ensures NoSpace(s[..n])
    ensures n < |s| ==> s[n] == ' '
  {
    if s != [] && s[0] != ' ' then
      var m := WordLen(s[1..]);
      assert s[..m + 1] == [s[0]] + s[1..][..m];
      1 + m
    else 0
  }

  lemma {:induction false} DigitRunLenUnique(s: string, k: nat)
    requires k <= |s| && AllDigits(s[..k])
    requires k < |s| ==> !IsDigit(s[k])
    ensures DigitRunLen(s) == k
  {
    if k > 0 {
      assert IsDigit(s[..k][0]);
      assert s[1..][..k - 1] == s[..k][1..];
      DigitRunLenUnique(s[1..], k - 1);
    }
  }

  lemma {:induction false} WordLenUnique(s: string, k: nat)
    requires k <= |s| && NoSpace(s[..k])
    requires k < |s| ==> s[k] == ' '
    ensures WordLen(s) == k
  {
    if k > 0 {
      assert s[..k][0] != ' ';
      assert s[1..][..k - 1] == s[..k][1..];
      WordLenUnique(s[1..], k - 1);
    }
  }

  /** `s` from position `k`, empty once `k` runs past the end: after a name
      that ends the input the original's position is one past the end. */
  function Tail(s: string, k: nat): string {
    if k <= |s| then s[k..] else []
  }

  /** Maximal-munch scanning. A digit run is taken whole and the character
      that ends it is scanned next; a space separates; a name runs from any
      other character to the next space, which it consumes. */
  function Lexemes(s: string): (ls: seq<Lexeme>)
    ensures |ls| <= |s|
    ensures forall i | 0 <= i < |ls| :: WellFormed(ls[i])
    decreases |s|
  {
    if s == [] then []
    else if IsDigit(s[0]) then
      var n := DigitRunLen(s);
      [Digits(s[..n])] + Lexemes(s[n..])
    else if IsPunct(s[0]) then
      [Punct(s[0])] + Lexemes(s[1..])
    else if s[0] == ' ' then
      Lexemes(s[1..])
    else
      var n := WordLen(s);
      assert s[..n][0] == s[0];
      [Word(s[..n])] + Lexemes(Tail(s, n + 1))
  }

  /** Joins lexemes with single spaces: the canonical text of a lexeme list. */
  function Unlex(ls: seq<Lexeme>): string {
    if ls == [] then ""
    else if |ls| == 1 then Text(ls[0])
    else Text(ls[0]) + " " + Unlex(ls[1..])
  }

  // ---------------------------------------------------------------------
  // Conversion to tokens

  /** A digit lexeme whose value `i32` cannot hold makes the original's
      `parse().unwrap()` panic; such input is outside the model. */
  predicate Fits(l: Lexeme)
    requires WellFormed(l)
  {
    l.Digits? ==> DecimalValue(l.text) <= MAX
  }

  predicate Admissible(ls: seq<Lexeme>) {
    forall i | 0 <= i < |ls| :: WellFormed(ls[i]) && Fits(ls[i])
  }

  predicate LiteralsFit(s: string) {
    Admissible(Lexemes(s))
  }

  /** A name is a declaration keyword exactly when it is `let`. */
  function NameToken(w: string): (t: Token)
    ensures t == DecVar <==> w == "let"
    ensures t != DecVar ==> t == Sym(w)
  {
    if w == "let" then DecVar else Sym(w)
  }

  function ToToken(l: Lexeme): (t: Token)
    requires WellFormed(l) && Fits(l)
    ensures t.Int? <==> l.Digits?
    ensures t.Int? ==> t.val >= 0 && t.val == DecimalValue(l.text)
    ensures (t.Sym? || t.DecVar?) <==> l.Word?
  {
    match l
    case Digits(d) => Int(DecimalValue(d))
    case Punct(c) => PunctToken(c)
    case Word(w) => NameToken(w)
  }

  function ToTokens(ls: seq<Lexeme>): (ts: seq<Token>)
    requires Admissible(ls)
    ensures |ts| == |ls|
    ensures forall i | 0 <= i < |ts| :: ts[i] == ToToken(ls[i])
  {
    if ls == [] then [] else [ToToken(ls[0])] + ToTokens(ls[1..])
  }

  /** What `tokenize` returns inside its `Ok`. */
  function Lex(s: string): (ts: seq<Token>)
    requires LiteralsFit(s)
    ensures |ts| <= |s|
    ensures forall i | 0 <= i < |ts| :: ts[i].Int? ==> ts[i].val >= 0
  {
    ToTokens(Lexemes(s))
  }

  // ---------------------------------------------------------------------
  // Scanning laws

  /** Each one-character token character yields exactly its token. */
  lemma LexemesPunct(c: char, rest: string)
    requires IsPunct(c)
    ensures Lexemes([c] + rest) == [Punct(c)] + Lexemes(rest)
  {
    assert ([c] + rest)[1..] == rest;
  }

  /** A space yields nothing. */
  lemma LexemesSpace(rest: string)
    ensures Lexemes([' '] + rest) == Lexemes(rest)
  {
    assert ([' '] + rest)[1..] == rest;
  }

  /** A maximal digit run is one lexeme, and the character that ends it is
      scanned next rather than skipped. */
  lemma LexemesDigitRun(d: string, rest: string)
    requires |d| > 0 && AllDigits(d)
    requires rest != [] ==> !IsDigit(rest[0])
    ensures Lexemes(d + rest) == [Digits(d)] + Lexemes(rest)
  {
    var s := d + rest;
    assert s[..|d|] == d;
    DigitRunLenUnique(s, |d|);
    assert s[|d|..] == rest;
  }

  /** A name runs to the next space or the end, taking digits, operators and
      brackets with it; the space that ends it is consumed. */
  lemma LexemesWord(w: string, rest: string)
    requires WellFormed(Word(w))
    requires rest != [] ==> rest[0] == ' '
    ensures Lexemes(w + rest) == [Word(w)] + Lexemes(rest)
  {
    var s := w + rest;
    assert s[..|w|] == w;
    WordLenUnique(s, |w|);
    if rest != [] {
      assert Tail(s, |w| + 1) == rest[1..];
      LexemesSpace(rest[1..]);
      assert [' '] + rest[1..] == rest;
    }
  }

  lemma LexemesOfText(l: Lexeme)
    requires WellFormed(l)
    ensures Lexemes(Text(l)) == [l]
  {
    match l
    case Digits(d) =>
      LexemesDigitRun(d, "");
      assert d + "" == d;
    case Punct(c) =>
      LexemesPunct(c, "");
      assert [c] + "" == [c];
    case Word(w) =>
      LexemesWord(w, "");
      assert w + "" == w;
  }

  /** Concatenation law: separating two texts by a space scans them apart. */
  lemma {:induction false} LexemesConcat(a: string, b: string)
    ensures Lexemes(a + " " + b) == Lexemes(a) + Lexemes(b)
    decreases |a|, 1
  {
    if a == [] {
      assert a + " " + b == [' '] + b;
      LexemesSpace(b);
    } else if IsDigit(a[0]) {
      LexemesConcatDigits(a, b);
    } else if IsPunct(a[0]) || a[0] == ' ' {
      LexemesConcatChar(a, b);
    } else {
      LexemesConcatWord(a, b);
    }
  }

  /** Sequence bookkeeping for the concatenation law, kept apart from it. */
  lemma SplitJoin(a: string, m: nat, b: string)
    requires m <= |a|
    ensures a == a[..m] + a[m..]
    ensures a + " " + b == a[..m] + (a[m..] + " " + b)
  {
  }

  lemma {:induction false} LexemesConcatDigits(a: string, b: string)
    requires a != [] && IsDigit(a[0])
    ensures Lexemes(a + " " + b) == Lexemes(a) + Lexemes(b)
    decreases |a|, 0
  {
    hide Lexemes;
    var m := DigitRunLen(a);
    SplitJoin(a, m, b);
    LexemesDigitRun(a[..m], a[m..]);
    LexemesDigitRun(a[..m], a[m..] + " " + b);
    LexemesConcat(a[m..], b);
  }

  lemma {:induction false} LexemesConcatChar(a: string, b: string)
    requires a != [] && (IsPunct(a[0]) || a[0] == ' ')
    ensures Lexemes(a + " " + b) == Lexemes(a) + Lexemes(b)
    decreases |a|, 0
  {
    hide Lexemes;
    var c, a' := a[0], a[1..];
    SplitJoin(a, 1, b);
    assert a[..1] == [c];
    LexemesConcat(a', b);
    if IsPunct(c) {
      LexemesPunct(c, a');
      LexemesPunct(c, a' + " " + b);
    } else {
      LexemesSpace(a');
      LexemesSpace(a' + " " + b);
    }
  }

  lemma {:induction false} LexemesConcatWord(a: string, b: string)
    requires a != [] && !IsDigit(a[0]) && !IsPunct(a[0]) && a[0] != ' '
    ensures Lexemes(a + " " + b) == Lexemes(a) + Lexemes(b)
    decreases |a|, 0
  {
    hide Lexemes;
    var m := WordLen(a);
    var w, a' := a[..m], a[m..];
    SplitJoin(a, m, b);
    assert w[0] == a[0];
    LexemesWord(w, a');
    LexemesWord(w, a' + " " + b);
    LexemesSpaceConcat(a', b);
    assert Lexemes(a' + " " + b) == Lexemes(a') + Lexemes(b);
  }

  /** The concatenation law for a text that is empty or starts with a space. */
  lemma {:induction false} LexemesSpaceConcat(a: string, b: string)
    requires a != [] ==> a[0] == ' '
    ensures Lexemes(a + " " + b) == Lexemes(a) + Lexemes(b)
    decreases |a|, 1
  {
    if a == [] {
      assert a + " " + b == [' '] + b;
      LexemesSpace(b);
    } else {
      LexemesConcatChar(a, b);
    }
  }

  /** Round trip: scanning the canonical text of lexemes gives them back. */
  lemma {:induction false} LexemesUnlex(ls: seq<Lexeme>)
    requires forall i | 0 <= i < |ls| :: WellFormed(ls[i])
    ensures Lexemes(Unlex(ls)) == ls
  {
    if |ls| == 1 {
      LexemesOfText(ls[0]);
    } else if |ls| > 1 {
      LexemesConcat(Text(ls[0]), Unlex(ls[1..]));
      LexemesOfText(ls[0]);
      LexemesUnlex(ls[1..]);
    }
  }

  /** Scanning normalises: the canonical text of a scan scans the same. */
  lemma LexemesNormalise(s: string)
    ensures Lexemes(Unlex(Lexemes(s))) == Lexemes(s)
  {
    LexemesUnlex(Lexemes(s));
  }

  // ---------------------------------------------------------------------
  // Token laws

  lemma ToTokensConcat(xs: seq<Lexeme>, ys: seq<Lexeme>)
    requires Admissible(xs) && Admissible(ys)
    ensures Admissible(xs + ys)
    ensures ToTokens(xs + ys) == ToTokens(xs) + ToTokens(ys)
  {
    hide ToTokens, ToToken, WellFormed, Fits;
    var zs := xs + ys;
    forall i | 0 <= i < |zs| ensures WellFormed(zs[i]) && Fits(zs[i]) {
      if i < |xs| {
        assert zs[i] == xs[i];
      } else {
        assert zs[i] == ys[i - |xs|];
      }
    }
    var l, r := ToTokens(zs), ToTokens(xs) + ToTokens(ys);
    forall i | 0 <= i < |l| ensures l[i] == r[i] {
      if i < |xs| {
        assert zs[i] == xs[i];
      } else {
        assert zs[i] == ys[i - |xs|];
      }
    }
  }

  /** Concatenation law for tokens: the joined text is in range exactly
      when both parts are, and then its tokens are theirs, in order. */
  lemma LexConcat(a: string, b: string)
    ensures LiteralsFit(a + " " + b) <==> LiteralsFit(a) && LiteralsFit(b)
    ensures LiteralsFit(a) && LiteralsFit(b) ==> Lex(a + " " + b) == Lex(a) + Lex(b)
  {
    hide Lexemes, ToTokens;
    LexemesConcat(a, b);
    var xs, ys := Lexemes(a), Lexemes(b);
    if LiteralsFit(a + " " + b) {
      forall i | 0 <= i < |xs| ensures WellFormed(xs[i]) && Fits(xs[i]) {
        assert (xs + ys)[i] == xs[i];
      }
      forall i | 0 <= i < |ys| ensures WellFormed(ys[i]) && Fits(ys[i]) {
        assert (xs + ys)[|xs| + i] == ys[i];
      }
    }
    if LiteralsFit(a) && LiteralsFit(b) {
      ToTokensConcat(xs, ys);
    }
  }

  lemma LexPunct(c: char)
    requires IsPunct(c)
    ensures LiteralsFit([c]) && Lex([c]) == [PunctToken(c)]
  {
    LexemesOfText(Punct(c));
  }

  lemma LexSpace()
    ensures LiteralsFit(" ") && Lex(" ") == []
  {
    LexemesSpace("");
    assert [' '] + "" == " ";
  }

  /** A digit string in range is one `Int` carrying its decimal value. */
  lemma LexNumeral(d: string)
    requires |d| > 0 && AllDigits(d) && DecimalValue(d) <= MAX
    ensures LiteralsFit(d) && Lex(d) == [Int(DecimalValue(d))]
  {
    LexemesOfText(Digits(d));
  }

  /** A name is one token: `DecVar` for `let`, otherwise a `Sym` carrying
      exactly the scanned text. */
  lemma LexName(w: string)
    requires WellFormed(Word(w))
    ensures LiteralsFit(w)
    ensures Lex(w) == [if w == "let" then DecVar else Sym(w)]
  {
    LexemesOfText(Word(w));
  }

  /** An operator or bracket character is one token whatever follows it. */
  lemma LexPunctBefore(c: char, rest: string)
    requires IsPunct(c) && LiteralsFit(rest)
    ensures LiteralsFit([c] + rest) && Lex([c] + rest) == [PunctToken(c)] + Lex(rest)
  {
    hide Lexemes, ToTokens;
    LexemesPunct(c, rest);
    LexemesOfText(Punct(c));
    LexPunct(c);
    ToTokensConcat([Punct(c)], Lexemes(rest));
  }

  /** A digit run ends at the first character that is not a digit. */
  lemma LexDigitsBefore(d: string, rest: string)
    requires |d| > 0 && AllDigits(d) && DecimalValue(d) <= MAX
    requires LiteralsFit(rest) && (rest != [] ==> !IsDigit(rest[0]))
    ensures LiteralsFit(d + rest) && Lex(d + rest) == [Int(DecimalValue(d))] + Lex(rest)
  {
    hide Lexemes, ToTokens;
    LexemesDigitRun(d, rest);
    LexemesOfText(Digits(d));
    LexNumeral(d);
    ToTokensConcat([Digits(d)], Lexemes(rest));
  }

  // ---------------------------------------------------------------------
  // The original's loop

  lemma LexemesEmpty()
    ensures Lexemes([]) == []
  {
  }

  /** One step of the scan, stated at a position of the whole input. */
  lemma LexemesDigitsAt(s: string, start: nat, end: nat)
    requires start < end <= |s| && AllDigits(s[start..end])
    requires end < |s| ==> !IsDigit(s[end])
    ensures Lexemes(Tail(s, start)) == [Digits(s[start..end])] + Lexemes(Tail(s, end))
  {
    assert s[start..] == s[start..end] + s[end..];
    LexemesDigitRun(s[start..end], s[end..]);
  }

  lemma LexemesCharAt(s: string, start: nat)
    requires start < |s|
    ensures IsPunct(s[start]) ==> Lexemes(Tail(s, start)) == [Punct(s[start])] + Lexemes(Tail(s, start + 1))
    ensures s[start] == ' ' ==> Lexemes(Tail(s, start)) == Lexemes(Tail(s, start + 1))
  {
    assert s[start..] == [s[start]] + s[start + 1..];
    if IsPunct(s[start]) {
      LexemesPunct(s[start], s[start + 1..]);
    } else if s[start] == ' ' {
      LexemesSpace(s[start + 1..]);
    }
  }

  lemma LexemesWordAt(s: string, start: nat, end: nat)
    requires start < end <= |s| && WellFormed(Word(s[start..end]))
    requires end < |s| ==> s[end] == ' '
    ensures Lexemes(Tail(s, start)) == [Word(s[start..end])] + Lexemes(Tail(s, end + 1))
  {
    assert s[start..] == s[start..end] + s[end..];
    LexemesWord(s[start..end], s[end..]);
    if end < |s| {
      assert s[end..] == [' '] + s[end + 1..];
      LexemesSpace(s[end + 1..]);
    }
  }

  /** The inner loop of `tokenize` over a digit run: it stops at the
      first non-digit, or at the end, without consuming it. */
  method ScanDigits(chars: string, start: nat) returns (numStr: string, end: nat)
    requires start < |chars| && IsDigit(chars[start])
    ensures start < end <= |chars| && numStr == chars[start..end]
    ensures AllDigits(numStr)
    ensures end < |chars| ==> !IsDigit(chars[end])
  {
    var strPos := start;
    var c := chars[strPos];
    numStr := "";
    while '0' <= c <= '9'
      invariant start <= strPos < |chars| && c == chars[strPos]
      invariant numStr == chars[start..strPos]
      invariant AllDigits(numStr)
      invariant strPos == start ==> IsDigit(c)
      decreases |chars| - strPos
    {
      numStr := numStr + [c];
      strPos := strPos + 1;
      assert numStr == chars[start..strPos] && AllDigits(numStr);
      if strPos == |chars| {
        break;
      }
      c := chars[strPos];
    }
    end := strPos;
  }

  /** The inner loop of `tokenize` over a name: it stops at the first
      space, or at the end, without consuming it. */
  method ScanName(chars: string, start: nat) returns (token: string, end: nat)
    requires start < |chars| && chars[start] != ' '
    ensures start < end <= |chars| && token == chars[start..end]
    ensures NoSpace(token)
    ensures end < |chars| ==> chars[end] == ' '
  {
    var strPos := start;
    var c := chars[strPos];
    token := "";
    while c != ' '
      invariant start <= strPos < |chars| && c == chars[strPos]
      invariant token == chars[start..strPos]
      invariant NoSpace(token)
      invariant strPos == start ==> c != ' '
      decreases |chars| - strPos
    {
      token := token + [c];
      strPos := strPos + 1;
      assert token == chars[start..strPos] && NoSpace(token);
      if strPos == |chars| {
        break;
      }
      c := chars[strPos];
    }
    end := strPos;
  }

  /** The bookkeeping of one pass of `tokenize`'s loop: the lexemes one
      scanning step produced join those already converted. */
  lemma ScanStep(expr: string, done: seq<Lexeme>, step: seq<Lexeme>, pos: nat, pos': nat)
    requires LiteralsFit(expr) && Admissible(done)
    requires Lexemes(expr) == done + Lexemes(Tail(expr, pos))
    requires Lexemes(Tail(expr, pos)) == step + Lexemes(Tail(expr, pos'))
    ensures Lexemes(expr) == (done + step) + Lexemes(Tail(expr, pos'))
    ensures Admissible(step) && Admissible(done + step)
    ensures ToTokens(done + step) == ToTokens(done) + ToTokens(step)
    ensures |step| == 1 ==> ToTokens(step) == [ToToken(step[0])]
  {
    hide Lexemes, ToTokens;
    var all := Lexemes(expr);
    assert all == (done + step) + Lexemes(Tail(expr, pos'));
    forall i | 0 <= i < |step| ensures WellFormed(step[i]) && Fits(step[i]) {
      assert all[|done| + i] == step[i];
    }
    ToTokensConcat(done, step);
    if |step| == 1 {
      assert ToTokens(step) == [ToToken(step[0])];
    }
  }

  /** One pass of `tokenize`'s loop from position `start`: a digit run,
      a one-character token, a space, or a name and the space after it. The
      lexemes it consumes are the next ones of the scan, and the tokens it
      appends are theirs. */
  method TokenizeStep(expr: string, start: nat, tokens: seq<Token>, ghost done: seq<Lexeme>)
    returns (strPos: nat, tokens': seq<Token>, ghost done': seq<Lexeme>)
    requires LiteralsFit(expr) && start < |expr|
    requires Lexemes(expr) == done + Lexemes(Tail(expr, start))
    requires Admissible(done) && tokens == ToTokens(done)
    ensures start < strPos <= |expr| + 1
    ensures Lexemes(expr) == done' + Lexemes(Tail(expr, strPos))
    ensures Admissible(done') && tokens' == ToTokens(done')
  {
    hide Lexemes, ToTokens;
    var chars := expr;
    var c := chars[start];
    ghost var step: seq<Lexeme> := [];
    if '0' <= c <= '9' {
      var numStr;
      numStr, strPos := ScanDigits(chars, start);
      LexemesDigitsAt(expr, start, strPos);
      step := [Digits(numStr)];
      ScanStep(expr, done, step, start, strPos);
      assert Fits(step[0]);
      tokens' := tokens + [Int(DecimalValue(numStr))];
    } else {
      strPos := start;
      LexemesCharAt(expr, start);
      if IsPunct(c) {
        step := [Punct(c)];
        ScanStep(expr, done, step, start, start + 1);
        tokens' := tokens + [PunctToken(c)];
      } else if c == ' ' {
        ScanStep(expr, done, step, start, start + 1);
        tokens' := tokens;
      } else {
        // anything else starts a name, which `ScanName` collects
        var token;
        token, strPos := ScanName(chars, start);
        assert token[0] == c;
        LexemesWordAt(expr, start, strPos);
        step := [Word(token)];
        ScanStep(expr, done, step, start, strPos + 1);
        tokens' := tokens + [if token == "let" then DecVar else Sym(token)];
      }
      strPos := strPos + 1;
    }
    done' := done + step;
  }

  /** `tokenize`: a scanning loop over the characters. It has no error
      path: the result is always `Success`. */
  method Tokenize(expr: string) returns (r: Result<seq<Token>, Error>)
    requires LiteralsFit(expr)
    ensures r == Success(Lex(expr))
  {
    hide Lexemes, ToTokens;
    var strPos: nat := 0;
    var tokens: seq<Token> := [];
    ghost var done: seq<Lexeme> := [];
    while strPos < |expr|
      invariant strPos <= |expr| + 1
      invariant Lexemes(expr) == done + Lexemes(Tail(expr, strPos))
      invariant Admissible(done)
      invariant tokens == ToTokens(done)
      decreases |expr| + 1 - strPos
    {
      strPos, tokens, done := TokenizeStep(expr, strPos, tokens, done);
    }
    assert Tail(expr, strPos) == [];
    LexemesEmpty();
    assert done == Lexemes(expr);
    return Success(tokens);
  }
}
