/** The two string utilities of `pretty_type_string` (metaprogram/type_string.hpp): the
    decoder that turns a string template argument, printed by the compiler as a list of
    character codes such as `{{72, 105, 0}}`, back into text, and the loop that breaks a
    type name into indented lines. */
module TypeString {
  import opened Wrappers
  import opened SizeT

  // ---------------------------------------------------------------------------
  // parse_string_arg
  // ---------------------------------------------------------------------------

  /** Largest value `std::stoull` returns (64-bit `unsigned long long`). */
  const ULLONG_MAX: nat := SIZE_MAX

  /** `std::isdigit` in the "C" locale. */
  predicate IsDigit(ch: char) {
    '0' <= ch <= '9'
  }

  predicate AllDigits(s: string) {
    forall i :: 0 <= i < |s| ==> IsDigit(s[i])
  }

  /** The digit runs the scanning loop collects from `s`, given the run `cur` it is in the
      middle of: a run is stored when a non-digit ends it, and a run still open when the
      input ends is never stored. */
  function RunsFrom(s: string, cur: string): seq<string>
    decreases |s|
  {
    if |s| == 0 then []
    else if IsDigit(s[0]) then RunsFrom(s[1..], cur + [s[0]])
    else (if |cur| > 0 then [cur] else []) + RunsFrom(s[1..], [])
  }

  /** `number_strings` after the loop over the whole source. */
  function Runs(s: string): seq<string> {
    RunsFrom(s, [])
  }

  /** Value of a decimal digit string. */
  function Value(ds: string): nat {
    if |ds| == 0 then 0
    else Value(ds[..|ds| - 1]) * 10 + ((ds[|ds| - 1] as int - '0' as int) % 10)
  }

  /** `std::stoull` on a digit run: its value, or the `out_of_range` error. */
  function Stoull(ds: string): Option<nat> {
    if Value(ds) <= ULLONG_MAX then Some(Value(ds)) else None
  }

  /** `cast<char>` of an unsigned value: the low eight bits, as a character code. */
  function CastChar(n: nat): char {
    (n % 256) as char
  }

  /** A one-byte code is cast to the character with that code. */
  lemma CastCharSmall(n: nat)
    requires n < 256
    ensures CastChar(n) == n as char
  {
  }

  /** `transform(stoull) | transform(cast<char>)` over the runs; `None` when some run is
      out of range. */
  function DecodeRuns(runs: seq<string>): (r: Option<string>)
    ensures r.None? <==> exists i :: 0 <= i < |runs| && Value(runs[i]) > ULLONG_MAX
    ensures r.Some? ==> |r.value| == |runs|
    ensures r.Some? ==> forall i :: 0 <= i < |runs| ==> r.value[i] == CastChar(Value(runs[i]))
  {
    if |runs| == 0 then Some([])
    else
      match Stoull(runs[0])
      case None => None
      case Some(n) =>
        match DecodeRuns(runs[1..])
        case None =>
          ghost var i :| 0 <= i < |runs[1..]| && Value(runs[1..][i]) > ULLONG_MAX;
          assert Value(runs[i + 1]) > ULLONG_MAX;
          None
        case Some(rest) =>
          assert forall i :: 1 <= i < |runs| ==> runs[i] == runs[1..][i - 1];
          Some([CastChar(n)] + rest)
  }

  /** `drop_last(1)`. */
  function DropLast<T>(s: seq<T>): seq<T> {
    if |s| == 0 then s else s[..|s| - 1]
  }

  /** `detail::parse_string_arg`: the characters whose codes are the digit runs of the
      source, without the last one (the terminating zero); `out_of_range` is `None`.  The
      pipeline is lazy: `drop_last(1)` never dereferences the last element, so `stoull`
      never sees the last run and only the runs before it can fail. */
  function ParseStringArg(source: string): (r: Option<string>)
    ensures r.None? <==>
      exists i :: 0 <= i < |Runs(source)| - 1 && Value(Runs(source)[i]) > ULLONG_MAX
    ensures r.Some? ==> |r.value| == if |Runs(source)| == 0 then 0 else |Runs(source)| - 1
    ensures r.Some? ==>
      forall i :: 0 <= i < |r.value| ==> r.value[i] == CastChar(Value(Runs(source)[i]))
  {
    var runs := Runs(source);
    var kept := DropLast(runs);
    assert forall i :: 0 <= i < |kept| ==> kept[i] == runs[i];
    DecodeRuns(kept)
  }

  /** The last run is never converted: whatever its value, a single run followed by a
      separator leaves the empty string, even when `stoull` would reject the run. */
  lemma LastRunNeverConverted(d: string)
    requires |d| > 0 && AllDigits(d)
    ensures Runs(d + ",") == [d]
    ensures ParseStringArg(d + ",") == Some("")
  {
    RunsFromDigits(d, ",", []);
    assert [] + d == d;
    assert ","[1..] == [];
    assert RunsFrom(",", d) == [d] + RunsFrom([], []);
  }

  /** For instance 2^64, one more than `stoull` can return, in the last position. */
  lemma OutOfRangeLastRunAccepted()
    ensures Value(Decimal(SIZE_MOD)) > ULLONG_MAX
    ensures ParseStringArg(Decimal(SIZE_MOD) + ",") == Some("")
  {
    DecimalValue(SIZE_MOD);
    LastRunNeverConverted(Decimal(SIZE_MOD));
  }

  /** Every collected run is a non-empty string of digits. */
  lemma {:induction false} RunsAreDigitRuns(s: string, cur: string)
    requires AllDigits(cur)
    ensures forall i :: 0 <= i < |RunsFrom(s, cur)| ==>
      |RunsFrom(s, cur)[i]| > 0 && AllDigits(RunsFrom(s, cur)[i])
    decreases |s|
  {
    if |s| > 0 {
      if IsDigit(s[0]) {
        RunsAreDigitRuns(s[1..], cur + [s[0]]);
      } else {
        RunsAreDigitRuns(s[1..], []);
      }
    }
  }

  /** Reading digits only extends the open run. */
  lemma {:induction false} RunsFromDigits(ds: string, t: string, cur: string)
    requires AllDigits(ds)
    ensures RunsFrom(ds + t, cur) == RunsFrom(t, cur + ds)
    decreases |ds|
  {
    if |ds| > 0 {
      assert (ds + t)[1..] == ds[1..] + t;
      assert cur + [ds[0]] + ds[1..] == cur + ds;
      RunsFromDigits(ds[1..], t, cur + [ds[0]]);
    } else {
      assert ds + t == t && cur + ds == cur;
    }
  }

  /** A run that is still open at the end of the input is discarded: appending digits to
      any source leaves its runs unchanged. */
  lemma {:induction false} TrailingDigitsIgnored(s: string, ds: string, cur: string)
    requires AllDigits(ds)
    ensures RunsFrom(s + ds, cur) == RunsFrom(s, cur)
    decreases |s|
  {
    if |s| == 0 {
      assert s + ds == ds + [];
      RunsFromDigits(ds, [], cur);
    } else {
      assert (s + ds)[1..] == s[1..] + ds;
      if IsDigit(s[0]) {
        TrailingDigitsIgnored(s[1..], ds, cur + [s[0]]);
      } else {
        TrailingDigitsIgnored(s[1..], ds, []);
      }
    }
  }

  // ---------------------------------------------------------------------------
  // the compiler's rendering of a string argument, and the round trip
  // ---------------------------------------------------------------------------

  function DigitChar(d: nat): char
    requires d < 10
  {
    ('0' as int + d) as char
  }

  /** Decimal digits of n, most significant first, without leading zeros. */
  function Decimal(n: nat): (ds: string)
    ensures |ds| > 0 && AllDigits(ds)
  {
    if n < 10 then [DigitChar(n)] else Decimal(n / 10) + [DigitChar(n % 10)]
  }

  /** Reading back the decimal digits of a number gives the number. */
  lemma {:induction false} DecimalValue(n: nat)
    ensures Value(Decimal(n)) == n
  {
    if n >= 10 {
      DecimalValue(n / 10);
      assert Decimal(n)[..|Decimal(n)| - 1] == Decimal(n / 10);
    }
  }

  /** Codes rendered as a brace list: `72, 105, 0}}`. */
  function EncodeCodes(ns: seq<nat>): string
    requires |ns| > 0
  {
    if |ns| == 1 then Decimal(ns[0]) + "}}"
    else Decimal(ns[0]) + ", " + EncodeCodes(ns[1..])
  }

  /** A string argument as the compiler prints it: the character codes followed by the
      terminating zero, between double braces. */
  function EncodeArg(s: string): string {
    "{{" + EncodeCodes(Codes(s) + [0])
  }

  function Codes(s: string): (ns: seq<nat>)
    ensures |ns| == |s| && forall i :: 0 <= i < |s| ==> ns[i] == s[i] as nat
  {
    if |s| == 0 then [] else [s[0] as nat] + Codes(s[1..])
  }

  function Decimals(ns: seq<nat>): (r: seq<string>)
    ensures |r| == |ns| && forall i :: 0 <= i < |ns| ==> r[i] == Decimal(ns[i])
  {
    if |ns| == 0 then [] else [Decimal(ns[0])] + Decimals(ns[1..])
  }

  /** The runs of a rendered code list are the decimal renderings of the codes. */
  lemma {:induction false} RunsOfEncodedCodes(ns: seq<nat>)
    requires |ns| > 0
    ensures Runs(EncodeCodes(ns)) == Decimals(ns)
    decreases |ns|
  {
    var d := Decimal(ns[0]);
    if |ns| == 1 {
      RunsOfLastCode(d);
      assert Decimals(ns) == [d];
    } else {
      var rest := EncodeCodes(ns[1..]);
      assert EncodeCodes(ns) == d + (", " + rest);
      RunsOfCodeThenRest(d, rest);
      RunsOfEncodedCodes(ns[1..]);
      assert Decimals(ns) == [d] + Decimals(ns[1..]);
    }
  }

  /** The last code, closed by the double brace, is one run. */
  lemma RunsOfLastCode(d: string)
    requires |d| > 0 && AllDigits(d)
    ensures Runs(d + "}}") == [d]
  {
    RunsFromDigits(d, "}}", []);
    assert [] + d == d;
    assert "}}"[1..] == "}" && "}"[1..] == "";
    assert RunsFrom("}", []) == [];
  }

  /** A code followed by the separator contributes one run ahead of the rest's. */
  lemma RunsOfCodeThenRest(d: string, rest: string)
    requires |d| > 0 && AllDigits(d)
    ensures Runs(d + (", " + rest)) == [d] + Runs(rest)
  {
    RunsFromDigits(d, ", " + rest, []);
    assert [] + d == d;
    assert (", " + rest)[1..] == " " + rest;
    assert (" " + rest)[1..] == rest;
    assert RunsFrom(", " + rest, d) == [d] + RunsFrom(" " + rest, []);
  }

  /** The runs of a rendered string argument are the decimal codes and the final zero. */
  lemma RunsOfEncodedArg(s: string)
    ensures Runs(EncodeArg(s)) == Decimals(Codes(s) + [0])
  {
    var enc := EncodeCodes(Codes(s) + [0]);
    assert ("{{" + enc)[1..] == "{" + enc;
    assert ("{" + enc)[1..] == enc;
    assert RunsFrom("{{" + enc, []) == RunsFrom("{" + enc, []);
    assert RunsFrom("{" + enc, []) == RunsFrom(enc, []);
    RunsOfEncodedCodes(Codes(s) + [0]);
  }

  /** Decoding the renderings of one-byte codes gives the characters with those codes. */
  lemma DecodeDecimals(ns: seq<nat>)
    requires forall i :: 0 <= i < |ns| ==> ns[i] < 256
    ensures DecodeRuns(Decimals(ns)).Some?
    ensures forall i :: 0 <= i < |ns| ==> DecodeRuns(Decimals(ns)).value[i] == ns[i] as char
  {
    var runs := Decimals(ns);
    forall i | 0 <= i < |runs|
      ensures Value(runs[i]) == ns[i]
    {
      DecimalValue(ns[i]);
    }
    var r := DecodeRuns(runs);
    assert r.Some?;
    forall i | 0 <= i < |ns|
      ensures r.value[i] == ns[i] as char
    {
      assert r.value[i] == CastChar(ns[i]);
      CastCharSmall(ns[i]);
    }
  }

  /** Decoding the rendering of a string recovers the string, for one-byte characters. */
  lemma ParseEncodedArg(s: string)
    requires forall i :: 0 <= i < |s| ==> s[i] as nat < 256
    ensures ParseStringArg(EncodeArg(s)) == Some(s)
  {
    var ns := Codes(s) + [0];
    RunsOfEncodedArg(s);
    assert DropLast(Decimals(ns)) == Decimals(Codes(s));
    DecodeDecimals(Codes(s));
    var cs := DecodeRuns(Decimals(Codes(s))).value;
    assert |cs| == |s|;
    assert cs == s;
  }

  // ---------------------------------------------------------------------------
  // the indenting formatter
  // ---------------------------------------------------------------------------

  /** The loop's state: `indent_level`, `nested_braces` and `result`. */
  datatype Fmt = Fmt(level: Size, braces: Size, out: string)

  /** The formatter's two parameters, `max_indent` (default 32) and `indent_size`
      (default 3). */
  datatype Layout = Layout(maxIndent: Size, indentSize: Size)

  function Spaces(n: nat): (s: string)
    ensures |s| == n && forall i :: 0 <= i < n ==> s[i] == ' '
  {
    if n == 0 then [] else [' '] + Spaces(n - 1)
  }

  /** `std::string(indent_level * indent_size, ' ')`, with the product taken on `size_t`. */
  function Indent(lay: Layout, level: Size): string {
    Spaces(Mul(level, lay.indentSize))
  }

  /** The `print` lambda: appends only while the level is below `max_indent`. */
  function Print(lay: Layout, f: Fmt, text: string): (g: Fmt)
    ensures g.level == f.level && g.braces == f.braces
    ensures g.out == if f.level < lay.maxIndent then f.out + text else f.out
  {
    if f.level < lay.maxIndent then f.(out := f.out + text) else f
  }

  /** One iteration of the loop body for character `ch`. */
  function Step(lay: Layout, f: Fmt, ch: char): (g: Fmt)
    ensures ch != '<' && ch != '>' ==> g.level == f.level
    ensures ch != '{' && ch != '}' ==> g.braces == f.braces
  {
    var b := if ch == '{' then Add(f.braces, 1) else if ch == '}' then Sub(f.braces, 1)
             else f.braces;
    var f1 := f.(braces := b);
    if ch == '<' then
      var f2 := f1.(level := Add(f1.level, 1));
      if f2.level == lay.maxIndent then f2.(out := f2.out + "< ... >")
      else Print(lay, Print(lay, f2, "<\n"), Indent(lay, f2.level))
    else if ch == '>' then
      var f2 := f1.(level := Sub(f1.level, 1));
      if f1.level < lay.maxIndent then
        Print(lay, Print(lay, f2, "\n"), Indent(lay, f2.level) + ">")
      else f2
    else if ch == ',' then
      var f2 := Print(lay, f1, ",");
      if f2.braces == 0 then Print(lay, f2, "\n" + Indent(lay, f2.level)) else f2
    else Print(lay, f1, [ch])
  }

  /** One loop step only appends to the output. */
  lemma StepOnlyAppends(lay: Layout, f: Fmt, ch: char)
    ensures f.out <= Step(lay, f, ch).out
  {
  }

  /** The loop from the current position `s` on: after a comma the next character is
      skipped. */
  function FormatFrom(lay: Layout, f: Fmt, s: string): Fmt
    decreases |s|
  {
    if |s| == 0 then f
    else if s[0] == ',' then FormatFrom(lay, Step(lay, f, ','), s[if |s| >= 2 then 2 else 1..])
    else FormatFrom(lay, Step(lay, f, s[0]), s[1..])
  }

  /** The formatter only ever appends to its output. */
  lemma {:induction false} FormatOnlyAppends(lay: Layout, f: Fmt, s: string)
    ensures f.out <= FormatFrom(lay, f, s).out
    decreases |s|
  {
    if |s| > 0 {
      var g := Step(lay, f, s[0]);
      StepOnlyAppends(lay, f, s[0]);
      FormatOnlyAppends(lay, g, s[if s[0] == ',' && |s| >= 2 then 2 else 1..]);
    }
  }

  /** The indentation loop of `pretty_type_string` (after the string arguments have been
      replaced). */
  function Format(lay: Layout, s: string): (r: string)
    ensures Plain(s) ==> r == if 0 < lay.maxIndent then s else []
  {
    if Plain(s) then
      PlainTextCopied(lay, Fmt(0, 0, []), s);
      FormatFrom(lay, Fmt(0, 0, []), s).out
    else FormatFrom(lay, Fmt(0, 0, []), s).out
  }

  /** Characters the formatter copies without touching its state. */
  predicate Plain(s: string) {
    forall i :: 0 <= i < |s| ==> s[i] !in "<>,{}"
  }

  /** Below the cap, plain text is copied unchanged; at or above it nothing is emitted. */
  lemma {:induction false} PlainTextCopied(lay: Layout, f: Fmt, s: string)
    requires Plain(s)
    ensures FormatFrom(lay, f, s).level == f.level && FormatFrom(lay, f, s).braces == f.braces
    ensures FormatFrom(lay, f, s).out == if f.level < lay.maxIndent then f.out + s else f.out
    decreases |s|
  {
    if |s| > 0 {
      assert s[0] !in "<>,{}" by { assert Plain(s); }
      var g := Step(lay, f, s[0]);
      PlainTextCopied(lay, g, s[1..]);
      if f.level < lay.maxIndent {
        assert f.out + [s[0]] + s[1..] == f.out + s;
      }
    }
  }

  /** At or above the cap, no character other than a `<` that wraps the level round to
      `max_indent` produces output. */
  lemma StepSilentAtCap(lay: Layout, f: Fmt, ch: char)
    requires lay.maxIndent <= f.level < SIZE_MAX
    ensures Step(lay, f, ch).out == f.out
  {
  }

  /** A comma outside braces ends the line and starts the next one at the current
      indentation, swallowing the following character. */
  lemma CommaBreaksLine(lay: Layout, f: Fmt, c: char, t: string)
    requires f.level < lay.maxIndent && f.braces == 0
    ensures FormatFrom(lay, f, [',', c] + t)
         == FormatFrom(lay, f.(out := f.out + ",\n" + Indent(lay, f.level)), t)
  {
    assert ([',', c] + t)[2..] == t;
    assert f.out + "," + ("\n" + Indent(lay, f.level)) == f.out + ",\n" + Indent(lay, f.level);
  }

  /** Inside braces a comma is copied and the line goes on, still swallowing the following
      character. */
  lemma CommaInBracesKeepsLine(lay: Layout, f: Fmt, c: char, t: string)
    requires f.level < lay.maxIndent && f.braces != 0
    ensures FormatFrom(lay, f, [',', c] + t) == FormatFrom(lay, f.(out := f.out + ","), t)
  {
    assert ([',', c] + t)[2..] == t;
  }

  /** A bracketed plain argument below the cap is laid out on its own indented line, with
      the closing bracket on a line of its own at the outer indentation. */
  lemma {:induction false} BracketIndents(lay: Layout, f: Fmt, t: string)
    requires Plain(t) && f.level + 1 < lay.maxIndent
    ensures FormatFrom(lay, f, "<" + t + ">") ==
      f.(out := f.out + "<\n" + Indent(lay, f.level + 1) + t + "\n" + Indent(lay, f.level) + ">")
  {
    var lead := f.out + "<\n" + Indent(lay, f.level + 1);
    var g := Step(lay, f, '<');
    assert g == Fmt(f.level + 1, f.braces, lead) by {
      OpenBracketStep(lay, f);
    }
    var h := FormatFrom(lay, g, t);
    assert h == Fmt(f.level + 1, f.braces, lead + t) by {
      PlainTextCopied(lay, g, t);
    }
    assert FormatFrom(lay, f, "<" + t + ">") == FormatFrom(lay, h, ">") by {
      FormatFromFirst(lay, f, "<" + t + ">");
      Bracketed(t);
      FormatTail(lay, g, t, ">");
    }
    assert FormatFrom(lay, h, ">") == Fmt(f.level, f.braces, lead + t + "\n" + Indent(lay, f.level) + ">") by {
      CloseBracketStep(lay, h);
    }
  }

  lemma Bracketed(t: string)
    ensures |"<" + t + ">"| > 0 && ("<" + t + ">")[0] == '<' && ("<" + t + ">")[1..] == t + ">"
  {
    var u := t + ">";
    assert "<" + t + ">" == "<" + u;
    assert ("<" + u)[1..] == u;
  }

  /** A first character other than a comma is consumed by exactly one loop step. */
  lemma FormatFromFirst(lay: Layout, f: Fmt, s: string)
    requires |s| > 0 && s[0] != ','
    ensures FormatFrom(lay, f, s) == FormatFrom(lay, Step(lay, f, s[0]), s[1..])
  {
  }

  /** Below the cap, `<` raises the level and opens an indented line. */
  lemma OpenBracketStep(lay: Layout, f: Fmt)
    requires f.level + 1 < lay.maxIndent
    ensures Step(lay, f, '<') == Fmt(f.level + 1, f.braces, f.out + "<\n" + Indent(lay, f.level + 1))
  {
  }

  /** Below the cap, `>` lowers the level and puts itself on a new line at that level. */
  lemma CloseBracketStep(lay: Layout, h: Fmt)
    requires 0 < h.level < lay.maxIndent
    ensures FormatFrom(lay, h, ">") == Fmt(h.level - 1, h.braces, h.out + "\n" + Indent(lay, h.level - 1) + ">")
  {
    assert Sub(h.level, 1) == h.level - 1;
    assert FormatFrom(lay, h, ">") == Step(lay, h, '>');
  }

  /** A bracket that reaches `max_indent` is elided: its whole plain content collapses to
      `< ... >`. */
  lemma BracketElidedAtCap(lay: Layout, f: Fmt, t: string)
    requires Plain(t) && f.level + 1 == lay.maxIndent
    ensures FormatFrom(lay, f, "<" + t + ">") == f.(out := f.out + "< ... >")
  {
    var g := Step(lay, f, '<');
    assert g == Fmt(lay.maxIndent, f.braces, f.out + "< ... >");
    Bracketed(t);
    FormatTail(lay, g, t, ">");
    PlainTextCopied(lay, g, t);
    var h := FormatFrom(lay, g, t);
    assert h == g;
    assert FormatFrom(lay, h, ">") == Step(lay, h, '>');
  }

  /** Formatting runs on from wherever the text before it left the state, as long as that
      text does not end in a comma (whose skip would reach into the rest). */
  lemma {:induction false} FormatTail(lay: Layout, f: Fmt, s: string, t: string)
    requires Plain(s)
    ensures FormatFrom(lay, f, s + t) == FormatFrom(lay, FormatFrom(lay, f, s), t)
    decreases |s|
  {
    if |s| == 0 {
      assert s + t == t;
    } else {
      assert s[0] != ',' by { assert Plain(s); }
      assert (s + t)[0] == s[0] && (s + t)[1..] == s[1..] + t;
      assert Plain(s[1..]) by { assert Plain(s); }
      FormatTail(lay, Step(lay, f, s[0]), s[1..], t);
    }
  }

  // ---------------------------------------------------------------------------
  // the indent strings and std::length_error
  // ---------------------------------------------------------------------------

  /** The length of the indent string the loop body asks `std::string` for on `ch`, when
      its branch builds one. The argument `std::string(indent_level * indent_size, ' ')` is
      constructed before `print` looks at the level, so the request is made even when
      nothing is printed; its length is the indent of the level the step leaves. */
  function IndentRequest(lay: Layout, f: Fmt, ch: char): (r: Option<Size>)
    ensures r.Some? ==> r.value == Mul(Step(lay, f, ch).level, lay.indentSize)
    ensures ch != '<' && ch != '>' && ch != ',' ==> r.None?
  {
    if ch == '<' then
      var level := Add(f.level, 1);
      if level == lay.maxIndent then None else Some(Mul(level, lay.indentSize))
    else if ch == '>' then
      if f.level < lay.maxIndent then Some(Mul(Sub(f.level, 1), lay.indentSize)) else None
    else if ch == ',' then
      if f.braces == 0 then Some(Mul(f.level, lay.indentSize)) else None
    else None
  }

  /** `std::string(n, ' ')` throws `std::length_error` when `n` exceeds `max_size()`, a
      bound the C++ standard leaves to the library, so it is a parameter here. */
  predicate StepThrows(lay: Layout, maxSize: nat, f: Fmt, ch: char) {
    var n := IndentRequest(lay, f, ch);
    n.Some? && n.value > maxSize
  }

  /** The loop as the program runs it: `None` once a step throws, otherwise the state the
      exception-free loop reaches. */
  function FormatCheckedFrom(lay: Layout, maxSize: nat, f: Fmt, s: string): (r: Option<Fmt>)
    ensures r.Some? ==> r.value == FormatFrom(lay, f, s)
    decreases |s|
  {
    if |s| == 0 then Some(f)
    else if StepThrows(lay, maxSize, f, s[0]) then None
    else if s[0] == ',' then FormatCheckedFrom(lay, maxSize, Step(lay, f, ','), s[if |s| >= 2 then 2 else 1..])
    else FormatCheckedFrom(lay, maxSize, Step(lay, f, s[0]), s[1..])
  }

  /** The indentation loop of `pretty_type_string` with its exception: the formatted text,
      or `None` for the `std::length_error` an indent string too long to build raises. */
  function FormatChecked(lay: Layout, maxSize: nat, s: string): (r: Option<string>)
    ensures r.Some? ==> r.value == Format(lay, s)
  {
    match FormatCheckedFrom(lay, maxSize, Fmt(0, 0, []), s)
    case Some(g) => Some(g.out)
    case None => None
  }

  /** `SIZE_MAX * k` on `size_t` is `2^64 - k`. */
  lemma MulMaxWraps(k: Size)
    requires 0 < k
    ensures Mul(SIZE_MAX, k) == SIZE_MOD - k
  {
    assert SIZE_MAX * k == (k - 1) * SIZE_MOD + (SIZE_MOD - k);
  }

  /** A `>` with no bracket open wraps the level round to `SIZE_MAX` and asks for
      `2^64 - indent_size` spaces, more than the library can hand out, so formatting any
      text that starts with it throws. */
  lemma CloseAtTopLevelThrows(lay: Layout, maxSize: nat, t: string)
    requires 0 < lay.maxIndent && 0 < lay.indentSize
    requires maxSize + lay.indentSize < SIZE_MOD
    ensures IndentRequest(lay, Fmt(0, 0, []), '>') == Some(SIZE_MOD - lay.indentSize)
    ensures FormatChecked(lay, maxSize, ">" + t) == None
  {
    MulMaxWraps(lay.indentSize);
  }

  /** Plain text never throws, and the checked loop runs on from where it leaves the
      state. */
  lemma {:induction false} PlainNeverThrows(lay: Layout, maxSize: nat, f: Fmt, s: string, t: string)
    requires Plain(s)
    ensures FormatCheckedFrom(lay, maxSize, f, s + t)
         == FormatCheckedFrom(lay, maxSize, FormatFrom(lay, f, s), t)
    decreases |s|
  {
    if |s| == 0 {
      assert s + t == t;
    } else {
      assert s[0] !in "<>,{}" by { assert Plain(s); }
      assert (s + t)[0] == s[0] && (s + t)[1..] == s[1..] + t;
      assert Plain(s[1..]) by { assert Plain(s); }
      PlainNeverThrows(lay, maxSize, Step(lay, f, s[0]), s[1..], t);
    }
  }

  /** A bracketed plain argument whose deeper indent fits in `max_size()` is formatted
      without an exception. */
  lemma BracketFitsNeverThrows(lay: Layout, maxSize: nat, f: Fmt, t: string)
    requires Plain(t) && f.level + 1 < lay.maxIndent
    requires Mul(f.level + 1, lay.indentSize) <= maxSize && Mul(f.level, lay.indentSize) <= maxSize
    ensures FormatCheckedFrom(lay, maxSize, f, "<" + t + ">") == Some(FormatFrom(lay, f, "<" + t + ">"))
  {
    var g := Step(lay, f, '<');
    assert ("<" + t + ">")[0] == '<' && ("<" + t + ">")[1..] == t + ">";
    PlainNeverThrows(lay, maxSize, g, t, ">");
    PlainTextCopied(lay, g, t);
  }
}
