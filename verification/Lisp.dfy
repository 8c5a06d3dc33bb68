/** The reader and printer of the Lisp interpreter (user/src/lisp.c) with `itoa` (user/include/printf.h). */
module Lisp {
  import opened Seqs

  const MAX_SYMBOL: nat := 63         // MAX_SYMBOL_LEN - 1
  const I32: int := 0x8000_0000

  type Int32 = n: int | -I32 <= n < I32

  datatype Val = Int(n: Int32) | Sym(s: string) | Cons(car: Val, cdr: Val) | Nil | Func

  // ------------------------------------------------------------------ printing

  function Digit(d: nat): (c: char)
    requires d < 10
    ensures '0' <= c <= '9' && (c as int) - ('0' as int) == d
  {
    ('0' as int + d) as char
  }

  /** The decimal digits of a positive number. */
  function Digits(n: nat): (s: string) {
    if n == 0 then [] else Digits(n / 10) + [Digit(n % 10)]
  }

  /** `itoa`; the smallest number is its own negation, and only its sign is printed. */
  function Itoa(n: Int32): (s: string) {
    if n == 0 then "0"
    else if n > 0 then Digits(n)
    else if n == -I32 then "-"
    else "-" + Digits(-n)
  }

  function Print(v: Val): (s: string)
    decreases v, 1
  {
    match v
    case Int(n) => Itoa(n)
    case Sym(s) => s
    case Nil => "nil"
    case Cons(_, _) => "(" + PrintItems(v) + ")"
    case Func => "<function>"
  }

  function PrintItems(v: Val): (s: string)
    requires v.Cons?
    decreases v, 0
  {
    Print(v.car) + (if v.cdr.Cons? then " " + PrintItems(v.cdr) else if v.cdr.Nil? then "" else " . " + Print(v.cdr))
  }

  // ------------------------------------------------------------------- reading

  function Head(s: string): (c: char) {
    if s == [] then '\0' else s[0]
  }

  predicate IsDigit(c: char) {
    '0' <= c <= '9'
  }

  predicate IsSpace(c: char) {
    c == ' ' || c == '\t' || c == '\n' || c == '\r'
  }

  /** What ends a symbol. */
  predicate IsDelimiter(c: char) {
    c == '\0' || IsSpace(c) || c == '(' || c == ')'
  }

  function SkipSpace(s: string): (r: string)
    ensures |r| <= |s| && !IsSpace(Head(r))
  {
    if IsSpace(Head(s)) then SkipSpace(s[1..]) else s
  }

  datatype Digested = Number(n: int, rest: string) | TooLarge

  /** The digit loop; a number that does not fit an int is undefined in C. */
  function ReadDigits(s: string, acc: nat): (r: Digested)
    requires acc < I32
    ensures r.Number? ==> |r.rest| <= |s| && 0 <= r.n < I32 && (IsDigit(Head(s)) ==> |r.rest| < |s|)
    decreases |s|
  {
    if !IsDigit(Head(s)) then Number(acc, s)
    else
      var n := acc * 10 + (s[0] as int - '0' as int);
      if n >= I32 then TooLarge else ReadDigits(s[1..], n)
  }

  /** The symbol loop: at most `room` more characters. */
  function TakeSymbol(s: string, room: nat): (r: (string, string))
    ensures |r.0| + |r.1| == |s| && |r.0| <= room
    ensures forall i :: 0 <= i < |r.0| ==> !IsDelimiter(r.0[i])
    ensures room > 0 && !IsDelimiter(Head(s)) ==> r.0 != [] && r.0[0] == s[0]
  {
    if room == 0 || IsDelimiter(Head(s)) then ([], s)
    else
      var r := TakeSymbol(s[1..], room - 1);
      ([s[0]] + r.0, r.1)
  }

  /** The symbol and what is left of the text. */
  lemma {:induction false} SymbolSplits(s: string, room: nat)
    ensures TakeSymbol(s, room).0 + TakeSymbol(s, room).1 == s
    decreases room
  {
    hide IsDelimiter, Head;
    if TakeSymbol(s, room).0 == [] {
      SymbolNone(s, room);
      AppendNone(s);
    } else {
      SymbolOne(s, room);
      var r := TakeSymbol(s[1..], room - 1);
      SymbolSplits(s[1..], room - 1);
      hide TakeSymbol;
      AppendAssoc([s[0]], r.0, r.1);
      HeadAndTail(s);
    }
  }

  lemma SymbolNone(s: string, room: nat)
    requires TakeSymbol(s, room).0 == []
    ensures TakeSymbol(s, room).1 == s
  {
  }

  lemma SymbolOne(s: string, room: nat)
    requires TakeSymbol(s, room).0 != []
    ensures room > 0 && s != []
    ensures TakeSymbol(s, room) == ([s[0]] + TakeSymbol(s[1..], room - 1).0, TakeSymbol(s[1..], room - 1).1)
  {
  }

  /** `Endless`: the list reader calls itself for ever at the end of the text. */
  datatype Result = Parsed(v: Val, rest: string) | Endless | Undefined

  function ParseExpr(s: string): (r: Result)
    ensures r.Parsed? ==> |r.rest| <= |s| && (Head(SkipSpace(s)) !in {'\0', ')'} ==> |r.rest| < |s|)
    decreases |s|, 0
  {
    var t := SkipSpace(s);
    if Head(t) == '(' then ParseList(t[1..])
    else if Head(t) == '`' || IsDigit(Head(t)) then
      var d := ReadDigits(if t[0] == '`' then t[1..] else t, 0);
      if d.TooLarge? then Undefined else Parsed(Int(if t[0] == '`' then -d.n else d.n), d.rest)
    else
      var r := TakeSymbol(t, MAX_SYMBOL);
      Parsed(Sym(r.0), r.1)
  }

  function ParseList(s: string): (r: Result)
    ensures r.Parsed? ==> |r.rest| < |s|
    decreases |s|, 1
  {
    var t := SkipSpace(s);
    if Head(t) == ')' then Parsed(Nil, t[1..])
    else if Head(t) == '\0' then Endless
    else
      match ParseExpr(t)
      case Parsed(car, rest) =>
        (match ParseList(rest)
         case Parsed(cdr, end) => Parsed(Cons(car, cdr), end)
         case other => other)
      case other => other
  }

  // -------------------------------------------------------- `itoa` as written

  function Backwards(s: string): (r: string)
    ensures |r| == |s|
  {
    if s == [] then [] else Backwards(s[1..]) + [s[0]]
  }

  lemma {:induction false} BackwardsAt(s: string, k: nat)
    requires k < |s|
    ensures Backwards(s)[k] == s[|s| - 1 - k]
    decreases |s|
  {
    if k < |s| - 1 {
      BackwardsAt(s[1..], k);
    }
  }

  lemma {:induction false} BackwardsAfter(s: string, c: char)
    ensures Backwards(s + [c]) == [c] + Backwards(s)
    decreases |s|
  {
    if s == [] {
      assert s + [c] == [c];
    } else {
      assert (s + [c])[1..] == s[1..] + [c];
      BackwardsAfter(s[1..], c);
    }
  }

  /** The digits come out lowest first; none for a negative number. */
  method DigitLoop(num: int) returns (temp: string)
    ensures Backwards(temp) == if num > 0 then Digits(num) else []
  {
    temp := [];
    if num <= 0 {
      return;
    }
    var n: nat := num;
    assert Digits(num) + [] == Digits(num);
    while n > 0
      invariant Digits(n) + Backwards(temp) == Digits(num)
    {
      var d := Digit(n % 10);
      DigitMoves(n, temp, d);
      hide Digits, Backwards;
      temp := temp + [d];
      n := n / 10;
    }
  }

  lemma DigitMoves(n: nat, temp: string, d: char)
    requires n > 0 && d == Digit(n % 10)
    ensures Digits(n / 10) + Backwards(temp + [d]) == Digits(n) + Backwards(temp)
  {
    BackwardsAfter(temp, d);
    hide Backwards;
    assert Digits(n / 10) + ([d] + Backwards(temp)) == Digits(n / 10) + [d] + Backwards(temp);
  }

  method CopyBack(temp: string) returns (buf: string)
    ensures buf == Backwards(temp)
  {
    buf := [];
    for k := 0 to |temp|
      invariant |buf| == k && buf == Backwards(temp)[..k]
    {
      BackwardsAt(temp, k);
      buf := buf + [temp[|temp| - k - 1]];
    }
    assert Backwards(temp)[..|temp|] == Backwards(temp);
  }

  /** Digits and sign are collected from the back and copied the other way round. */
  method ItoaBuffer(num: Int32) returns (buf: string)
    ensures buf == Itoa(num)
  {
    hide Digits, Backwards;
    if num == 0 {
      return "0";
    }
    var temp := DigitLoop(if num < 0 && num > -I32 then -num else num);
    if num < 0 {
      BackwardsAfter(temp, '-');
      temp := temp + ['-'];
    }
    buf := CopyBack(temp);
  }

  // ------------------------------------------------------- what the reader yields

  /** A symbol the reader can return other than the empty one. */
  predicate IsSymbol(s: string) {
    && 1 <= |s| <= MAX_SYMBOL && s[0] != '`' && !IsDigit(s[0])
    && forall i :: 0 <= i < |s| ==> !IsDelimiter(s[i])
  }

  /** A value the reader can return, except the empty symbol. */
  predicate Readable(v: Val)
    decreases v
  {
    match v
    case Int(n) => n > -I32
    case Sym(s) => IsSymbol(s)
    case Nil => true
    case Func => false
    case Cons(car, cdr) => Readable(car) && (cdr.Cons? || cdr.Nil?) && Readable(cdr)
  }

  lemma {:induction false} ExprReadable(s: string)
    ensures var r := ParseExpr(s);
            r.Parsed? ==> Readable(r.v) || (r.v == Sym("") && Head(SkipSpace(s)) in {'\0', ')'})
    decreases |s|, 0
  {
    var t := SkipSpace(s);
    if Head(t) == '(' {
      ListReadable(t[1..]);
    }
  }

  lemma {:induction false} ListReadable(s: string)
    ensures var r := ParseList(s); r.Parsed? ==> Readable(r.v) && (r.v.Cons? || r.v.Nil?)
    decreases |s|, 1
  {
    var t := SkipSpace(s);
    if Head(t) != ')' && Head(t) != '\0' {
      ExprReadable(t);
      SkipOnce(s);
      var r := ParseExpr(t);
      if r.Parsed? {
        ListReadable(r.rest);
      }
    }
  }

  lemma SkipOnce(s: string)
    ensures SkipSpace(SkipSpace(s)) == SkipSpace(s)
  {
  }

  // -------------------------------------------------------------- the round trip

  /** What printing and reading again makes of a value: a minus sign is no sign to the reader, nil is a symbol. */
  function Reread(v: Val): (r: Val)
    decreases v
  {
    match v
    case Int(n) => if n >= 0 then v else Sym(Itoa(n))
    case Nil => Sym("nil")
    case Cons(car, cdr) => Cons(Reread(car), if cdr.Nil? then Nil else Reread(cdr))
    case _ => v
  }

  /** Non-negative numbers, symbols, and non-empty lists of such. */
  predicate Legal(v: Val)
    decreases v
  {
    match v
    case Int(n) => n >= 0
    case Sym(s) => IsSymbol(s)
    case Cons(car, cdr) => Legal(car) && (cdr.Nil? || (cdr.Cons? && Legal(cdr)))
    case _ => false
  }

  lemma {:induction false} RereadSame(v: Val)
    requires Readable(v)
    ensures Reread(v) == v <==> Legal(v)
    decreases v
  {
    if v.Cons? {
      RereadSame(v.car);
      if v.cdr.Cons? {
        RereadSame(v.cdr);
      }
    }
  }

  lemma DigitRead(d: nat, t: string, acc: nat)
    requires d < 10 && acc * 10 + d < I32
    ensures ReadDigits([Digit(d)] + t, acc) == ReadDigits(t, acc * 10 + d)
  {
    assert ([Digit(d)] + t)[1..] == t;
  }

  lemma {:induction false} DigitsRead(n: nat, t: string)
    requires 0 < n < I32
    ensures IsDigit(Head(Digits(n) + t)) && ReadDigits(Digits(n) + t, 0) == ReadDigits(t, n)
    decreases n
  {
    var m, d := n / 10, n % 10;
    assert n == m * 10 + d;
    var more := [Digit(d)] + t;
    assert Digits(n) + t == Digits(m) + more;
    DigitRead(d, t, m);
    hide ReadDigits;
    if m > 0 {
      DigitsRead(m, more);
    } else {
      assert Digits(m) + more == more;
    }
  }

  lemma {:induction false} SymbolRead(s: string, rest: string, room: nat)
    requires |s| <= room && IsDelimiter(Head(rest)) && forall i :: 0 <= i < |s| ==> !IsDelimiter(s[i])
    ensures TakeSymbol(s + rest, room) == (s, rest)
    decreases |s|
  {
    if s == [] {
      assert s + rest == rest;
    } else {
      assert (s + rest)[1..] == s[1..] + rest;
      SymbolRead(s[1..], rest, room - 1);
      assert s == [s[0]] + s[1..];
    }
  }

  lemma SymbolParses(s: string, rest: string)
    requires IsSymbol(s) && IsDelimiter(Head(rest))
    ensures ParseExpr(s + rest) == Parsed(Sym(s), rest)
  {
    SymbolRead(s, rest, MAX_SYMBOL);
    assert Head(s + rest) == s[0];
  }

  lemma ItoaIsSymbol(n: Int32)
    requires n < 0
    ensures IsSymbol(Itoa(n))
  {
    if n > -I32 {
      DigitsShape(-n, 10);
    }
  }

  lemma {:induction false} DigitsShape(n: nat, k: nat)
    requires n < Power(k)
    ensures |Digits(n)| <= k && forall i :: 0 <= i < |Digits(n)| ==> IsDigit(Digits(n)[i])
    decreases k
  {
    if n > 0 {
      DigitsShape(n / 10, k - 1);
    }
  }

  function Power(k: nat): (p: nat) {
    if k == 0 then 1 else 10 * Power(k - 1)
  }

  lemma NumberParses(n: Int32, rest: string)
    requires n >= 0 && IsDelimiter(Head(rest))
    ensures ParseExpr(Itoa(n) + rest) == Parsed(Int(n), rest)
  {
    if n == 0 {
      assert ("0" + rest)[1..] == rest;
    } else {
      DigitsRead(n, rest);
      hide Digits;
    }
  }

  /** A backquote is the reader's minus sign. */
  lemma NegativeParses(n: int, rest: string)
    requires 0 < n < I32 && !IsDigit(Head(rest))
    ensures ParseExpr("`" + (Digits(n) + rest)) == Parsed(Int(-n), rest)
  {
    hide Digits, ParseExpr;
    DigitsRead(n, rest);
    assert ReadDigits(rest, n) == Number(n, rest);
    hide ReadDigits;
    Backquoted(Digits(n) + rest);
  }

  lemma Backquoted(t: string)
    ensures var d := ReadDigits(t, 0);
            ParseExpr("`" + t) == if d.TooLarge? then Undefined else Parsed(Int(-d.n), d.rest)
  {
    assert ("`" + t)[1..] == t;
  }

  /** An expression does not care for space in front of it, and neither does the rest of a list. */
  lemma SpaceInFront(c: char, s: string)
    requires IsSpace(c)
    ensures ParseExpr([c] + s) == ParseExpr(s) && ParseList([c] + s) == ParseList(s)
  {
    assert ([c] + s)[1..] == s;
  }

  /**
   * Printed and read again: any value the reader can produce comes back as `Reread` of it, and
   * exactly the text behind it is left, if that starts with a delimiter.
   */
  lemma {:induction false} PrintParse(v: Val, rest: string)
    requires Readable(v) && IsDelimiter(Head(rest))
    ensures ParseExpr(Print(v) + rest) == Parsed(Reread(v), rest)
    decreases v, 1
  {
    match v
    case Int(n) =>
      if n >= 0 {
        NumberParses(n, rest);
      } else {
        ItoaIsSymbol(n);
        SymbolParses(Itoa(n), rest);
      }
    case Sym(s) => SymbolParses(s, rest);
    case Nil => SymbolParses("nil", rest);
    case Cons(_, _) =>
      ItemsParse(v, rest);
      hide ParseList, PrintItems;
      assert Print(v) + rest == "(" + (PrintItems(v) + ")" + rest);
      assert ("(" + (PrintItems(v) + ")" + rest))[1..] == PrintItems(v) + ")" + rest;
  }

  lemma {:induction false} ItemsParse(v: Val, rest: string)
    requires v.Cons? && Readable(v)
    ensures ParseList(PrintItems(v) + ")" + rest) == Parsed(Reread(v), rest)
    decreases v, 0
  {
    hide ParseExpr, Print, ParseList, PrintItems, Itoa, IsSymbol;
    var end := if v.cdr.Cons? then " " + (PrintItems(v.cdr) + ")" + rest) else ")" + rest;
    ItemsText(v, rest);
    PrintParse(v.car, end);
    PrintStarts(v.car, end);
    ListStep(Print(v.car) + end);
    if v.cdr.Cons? {
      ItemsParse(v.cdr, rest);
      SpaceInFront(' ', PrintItems(v.cdr) + ")" + rest);
    } else {
      ListEnd(rest);
    }
  }

  lemma ItemsText(v: Val, rest: string)
    requires v.Cons? && (v.cdr.Cons? || v.cdr.Nil?)
    ensures PrintItems(v) + ")" + rest ==
            Print(v.car) + if v.cdr.Cons? then " " + (PrintItems(v.cdr) + ")" + rest) else ")" + rest
  {
    hide Print;
  }

  lemma ListStep(s: string)
    requires !IsSpace(Head(s)) && Head(s) !in {'\0', ')'}
    ensures ParseExpr(s).Parsed? && ParseList(ParseExpr(s).rest).Parsed? ==>
      ParseList(s) == Parsed(Cons(ParseExpr(s).v, ParseList(ParseExpr(s).rest).v), ParseList(ParseExpr(s).rest).rest)
  {
    hide ParseExpr;
  }

  lemma ListEnd(rest: string)
    ensures ParseList(")" + rest) == Parsed(Nil, rest)
  {
    assert (")" + rest)[1..] == rest;
  }

  /** Printed text starts with something an expression can start with. */
  lemma PrintStarts(v: Val, rest: string)
    requires Readable(v)
    ensures !IsSpace(Head(Print(v) + rest)) && Head(Print(v) + rest) !in {'\0', ')'}
  {
    if v.Int? && v.n > 0 {
      DigitsRead(v.n, rest);
    }
  }

  /** The round trip, exactly: a value comes back, and the text behind it is left, if and only if it is legal. */
  lemma RoundTrip(v: Val)
    ensures Legal(v) <==> forall rest | IsDelimiter(Head(rest)) :: ParseExpr(Print(v) + rest) == Parsed(v, rest)
    ensures Legal(v) <==> ParseExpr(Print(v) + " ") == Parsed(v, " ")
  {
    if Legal(v) {
      LegalReadable(v);
      RereadSame(v);
      forall rest | IsDelimiter(Head(rest)) ensures ParseExpr(Print(v) + rest) == Parsed(v, rest) {
        PrintParse(v, rest);
      }
    }
    if ParseExpr(Print(v) + " ") == Parsed(v, " ") {
      ExprReadable(Print(v) + " ");
      assert v != Sym("") by { EmptySymbol(); }
      PrintParse(v, " ");
      RereadSame(v);
    }
    assert IsDelimiter(Head(" "));
  }

  lemma EmptySymbol()
    ensures ParseExpr(Print(Sym("")) + " ") == Parsed(Sym(""), "")
  {
    assert Print(Sym("")) + " " == " ";
    assert " "[1..] == "";
  }

  lemma {:induction false} LegalReadable(v: Val)
    requires Legal(v)
    ensures Readable(v)
    decreases v
  {
    if v.Cons? {
      LegalReadable(v.car);
      if v.cdr.Cons? {
        LegalReadable(v.cdr);
      }
    }
  }

  // ------------------------------------------------------------- when it ends

  /** With `d` lists open, the text closes them all. */
  predicate Closes(s: string, d: nat)
    decreases |s|
  {
    if d == 0 then true
    else if Head(s) == '\0' then false
    else Closes(s[1..], if s[0] == '(' then d + 1 else if s[0] == ')' then d - 1 else d)
  }

  lemma {:induction false} SpaceCloses(s: string, d: nat)
    ensures Closes(s, d) == Closes(SkipSpace(s), d)
    decreases |s|
  {
    if IsSpace(Head(s)) {
      SpaceCloses(s[1..], d);
    }
  }

  lemma {:induction false} DigitsClose(s: string, acc: nat, d: nat)
    requires acc < I32
    ensures var r := ReadDigits(s, acc); r.Number? ==> Closes(s, d) == Closes(r.rest, d)
    decreases |s|
  {
    if IsDigit(Head(s)) {
      var n := acc * 10 + (s[0] as int - '0' as int);
      if n < I32 {
        DigitsClose(s[1..], n, d);
      }
    }
  }

  lemma {:induction false} SymbolCloses(s: string, room: nat, d: nat)
    ensures Closes(s, d) == Closes(TakeSymbol(s, room).1, d)
    decreases |s|
  {
    if room > 0 && !IsDelimiter(Head(s)) {
      SymbolCloses(s[1..], room - 1, d);
    }
  }

  /** Reading an expression keeps what is open. */
  lemma {:induction false} ExprCloses(s: string, d: nat)
    ensures var r := ParseExpr(s);
            && (r.Parsed? ==> Closes(s, d) == Closes(r.rest, d))
            && (r.Endless? && d > 0 ==> !Closes(s, d))
    decreases |s|, 0
  {
    var t := SkipSpace(s);
    SpaceCloses(s, d);
    if Head(t) == '(' {
      ListCloses(t[1..], d);
    } else if Head(t) == '`' || IsDigit(Head(t)) {
      DigitsClose(if t[0] == '`' then t[1..] else t, 0, d);
    } else {
      SymbolCloses(t, MAX_SYMBOL, d);
    }
  }

  /** Reading the rest of a list closes one. */
  lemma {:induction false} ListCloses(s: string, d: nat)
    ensures var r := ParseList(s);
            && (r.Parsed? ==> Closes(s, d + 1) == Closes(r.rest, d))
            && (r.Endless? ==> !Closes(s, d + 1))
    decreases |s|, 1
  {
    var t := SkipSpace(s);
    SpaceCloses(s, d + 1);
    if Head(t) != ')' && Head(t) != '\0' {
      ExprCloses(t, d + 1);
      SkipOnce(s);
      var r := ParseExpr(t);
      if r.Parsed? {
        ListCloses(r.rest, d);
      }
    }
  }

  // -------------------------------------------------------- numbers too large

  /** How many digits the text starts with. */
  function RunLen(s: string): (n: nat)
    ensures n <= |s| && (IsDigit(Head(s)) ==> n > 0)
  {
    if !IsDigit(Head(s)) then 0 else 1 + RunLen(s[1..])
  }

  /** The number those digits write, after the digits of `acc`. */
  function Value(s: string, acc: nat): (n: nat)
    ensures n >= acc
    decreases |s|
  {
    if !IsDigit(Head(s)) then acc else Value(s[1..], acc * 10 + (s[0] as int - '0' as int))
  }

  /** With `d` lists open, the text has a number of 2^31 or more before it closes them all. */
  predicate MeetsLarge(s: string, d: nat)
    decreases |s|
  {
    var t := SkipSpace(s);
    if d == 0 || Head(t) == '\0' then false
    else if t[0] == '(' then MeetsLarge(t[1..], d + 1)
    else if t[0] == ')' then MeetsLarge(t[1..], d - 1)
    else if t[0] == '`' || IsDigit(t[0]) then
      var u := if t[0] == '`' then t[1..] else t;
      Value(u, 0) >= I32 || MeetsLarge(u[RunLen(u)..], d)
    else MeetsLarge(TakeSymbol(t, MAX_SYMBOL).1, d)
  }

  /** The expression at the start of the text has a number of 2^31 or more. */
  predicate StartsLarge(s: string) {
    var t := SkipSpace(s);
    if Head(t) == '(' then MeetsLarge(t[1..], 1)
    else (Head(t) == '`' && Value(t[1..], 0) >= I32) || (IsDigit(Head(t)) && Value(t, 0) >= I32)
  }

  lemma {:induction false} DigitsLarge(s: string, acc: nat)
    requires acc < I32
    ensures ReadDigits(s, acc) == if Value(s, acc) >= I32 then TooLarge else Number(Value(s, acc), s[RunLen(s)..])
    decreases |s|
  {
    if IsDigit(Head(s)) {
      var n := acc * 10 + (s[0] as int - '0' as int);
      if n < I32 {
        DigitsLarge(s[1..], n);
        assert s[1..][RunLen(s[1..])..] == s[RunLen(s)..];
      }
    }
  }

  lemma SpaceLarge(s: string, d: nat)
    ensures MeetsLarge(s, d) == MeetsLarge(SkipSpace(s), d)
  {
    SkipOnce(s);
  }

  /** Inside a list, an expression fails on a large number it holds and otherwise leaves those behind it. */
  lemma {:induction false} ExprLarge(s: string, d: nat)
    requires d > 0
    ensures var r := ParseExpr(s); MeetsLarge(s, d) <==> r.Undefined? || (r.Parsed? && MeetsLarge(r.rest, d))
    decreases |s|, 0
  {
    var t := SkipSpace(s);
    SpaceLarge(s, d);
    if Head(t) == '(' {
      ListLarge(t[1..], d);
    } else if Head(t) == '`' || IsDigit(Head(t)) {
      DigitsLarge(if t[0] == '`' then t[1..] else t, 0);
    } else if IsDelimiter(Head(t)) {
      assert TakeSymbol(t, MAX_SYMBOL).1 == t;
    }
  }

  lemma {:induction false} ListLarge(s: string, d: nat)
    ensures var r := ParseList(s); MeetsLarge(s, d + 1) <==> r.Undefined? || (r.Parsed? && MeetsLarge(r.rest, d))
    decreases |s|, 1
  {
    var t := SkipSpace(s);
    SpaceLarge(s, d + 1);
    if Head(t) != ')' && Head(t) != '\0' {
      ExprLarge(t, d + 1);
      SkipOnce(s);
      var r := ParseExpr(t);
      if r.Parsed? {
        ListLarge(r.rest, d);
      }
    }
  }

  lemma NothingOpen(r: Result)
    ensures r.Parsed? ==> Closes(r.rest, 0) && !MeetsLarge(r.rest, 0)
  {
  }

  /**
   * The outcome of the reader, said of the text alone: undefined if and only if the expression
   * holds a number of 2^31 or more; else it ends if and only if every list it begins is closed
   * before the text ends.
   */
  lemma ReaderEnds(s: string)
    ensures ParseExpr(s).Undefined? <==> StartsLarge(s)
    ensures ParseExpr(s).Parsed? <==>
            !StartsLarge(s) && (Head(SkipSpace(s)) != '(' || Closes(SkipSpace(s)[1..], 1))
  {
    hide Closes, MeetsLarge, ParseList, ReadDigits, Value;
    var t := SkipSpace(s);
    if Head(t) == '(' {
      NothingOpen(ParseList(t[1..]));
      ListCloses(t[1..], 0);
      ListLarge(t[1..], 0);
    } else if Head(t) == '`' || IsDigit(Head(t)) {
      DigitsLarge(if t[0] == '`' then t[1..] else t, 0);
    }
  }
}
