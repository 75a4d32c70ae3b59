/** The pure part of `set_fan_speed`: the range check and the `ipmitool` argument vector. */
module Ipmi {
  import opened Wrappers

  /** The lower-case digits Python's `x` format uses. */
  const HexDigits: string := "0123456789abcdef"

  predicate IsLowerHexDigit(c: char) {
    '0' <= c <= '9' || 'a' <= c <= 'f'
  }

  function HexDigit(d: nat): (c: char)
    requires d < 16
    ensures IsLowerHexDigit(c)
    ensures DigitValue(c) == d
  {
    HexDigits[d]
  }

  /** The value of one hexadecimal digit. */
  function DigitValue(c: char): (d: nat) {
    if '0' <= c <= '9' then c as nat - '0' as nat
    else if 'a' <= c <= 'f' then c as nat - 'a' as nat + 10
    else 0
  }

  /** The number a string of hexadecimal digits denotes, most significant digit first. */
  function HexValue(s: string): (v: nat) {
    if s == [] then 0 else HexValue(s[..|s| - 1]) * 16 + DigitValue(s[|s| - 1])
  }

  /** Every character of `s` is a lower-case hexadecimal digit. */
  predicate AllHexDigits(s: string) {
    forall i :: 0 <= i < |s| ==> IsLowerHexDigit(s[i])
  }

  /** The shape of `format(n, 'x')` for a natural number: lower-case digits, and no leading zero
      unless the number is zero itself. */
  predicate IsMinimalHex(s: string) {
    |s| >= 1 && AllHexDigits(s) && (|s| > 1 ==> s[0] != '0')
  }

  /** The shape of `format(n, '02x')` for a natural number: lower-case digits, at least two, and
      zero-padded only up to two. */
  predicate IsPadded2Hex(s: string) {
    |s| >= 2 && AllHexDigits(s) && (|s| > 2 ==> s[0] != '0')
  }

  /** `format(n, 'x')` for a natural number: its lower-case hexadecimal digits, without leading
      zeros. */
  function ToHex(n: nat): (r: string)
    ensures IsMinimalHex(r)
    ensures HexValue(r) == n
    ensures |r| == 1 <==> n < 16
    ensures n < 256 ==> |r| <= 2
    decreases n
  {
    if n < 16 then [HexDigit(n)]
    else
      var high := ToHex(n / 16);
      var r := high + [HexDigit(n % 16)];
      assert r[..|r| - 1] == high;
      assert r[0] == high[0];
      assert |high| == 1 ==> DigitValue(high[0]) == n / 16 by {
        if |high| == 1 {
          assert high[..0] == [];
        }
      }
      r
  }

  /** `f"{n:02x}"`: at least two digits, zero-padded after the sign; a negative number is a
      minus sign followed by the digits of its magnitude. */
  function Hex02(n: int): (r: string)
    ensures |r| >= 2
    ensures 0 <= n ==> HexValue(r) == n && IsPadded2Hex(r)
    ensures 0 <= n < 256 ==> |r| == 2
    ensures forall i :: 0 <= i < |r| ==> IsLowerHexDigit(r[i]) || r[i] == '-'
  {
    if n < 0 then
      var digits := ToHex(-n);
      var r := "-" + digits;
      assert forall i :: 1 <= i < |r| ==> r[i] == digits[i - 1];
      r
    else
      var digits := ToHex(n);
      if |digits| < 2 then
        var r := "0" + digits;
        assert r[..1] == "0";
        r
      else digits
  }

  /** The number of digits `format(n, 'x')` writes. */
  function HexLength(n: nat): (k: nat)
    ensures k >= 1
    ensures n < 256 ==> k <= 2
  {
    if n < 16 then 1 else 1 + HexLength(n / 16)
  }

  /** A digit string's value is the value of all but its last digit, times 16, plus the last. */
  lemma LastDigit(s: string)
    requires |s| >= 1 && AllHexDigits(s)
    ensures HexValue(s) / 16 == HexValue(s[..|s| - 1])
    ensures HexValue(s) % 16 == DigitValue(s[|s| - 1])
  {
    var a, d := HexValue(s[..|s| - 1]), DigitValue(s[|s| - 1]);
    assert d < 16;
    assert HexValue(s) == a * 16 + d;
  }

  /** Two digit strings of the same length and value are equal. */
  lemma {:induction false} SameLengthHexUnique(s: string, t: string)
    requires |s| == |t| && AllHexDigits(s) && AllHexDigits(t)
    requires HexValue(s) == HexValue(t)
    ensures s == t
  {
    if |s| > 0 {
      var k := |s| - 1;
      LastDigit(s);
      LastDigit(t);
      SameLengthHexUnique(s[..k], t[..k]);
      assert s == s[..k] + [s[k]] && t == t[..k] + [t[k]];
    }
  }

  /** A minimal digit string has exactly as many digits as `format(n, 'x')` writes for its
      value. */
  lemma {:induction false} MinimalHexLength(s: string)
    requires IsMinimalHex(s)
    ensures |s| == HexLength(HexValue(s))
    ensures |s| >= 2 ==> HexValue(s) >= 16
    decreases |s|
  {
    if |s| >= 2 {
      var high := s[..|s| - 1];
      assert high[0] == s[0];
      LastDigit(s);
      if |high| >= 2 {
        MinimalHexLength(high);
      } else {
        assert high[..0] == [];
        assert HexValue(high) == DigitValue(s[0]);
      }
    } else {
      assert s[..0] == [];
    }
  }

  /** `format(n, 'x')` is the only minimal digit string with value `n`. */
  lemma ToHexIsTheMinimalForm(s: string)
    requires IsMinimalHex(s)
    ensures s == ToHex(HexValue(s))
  {
    var t := ToHex(HexValue(s));
    MinimalHexLength(s);
    MinimalHexLength(t);
    SameLengthHexUnique(s, t);
  }

  /** `format(n, '02x')` is the only two-padded digit string with value `n`. */
  lemma Hex02IsThePaddedForm(s: string)
    requires IsPadded2Hex(s)
    ensures s == Hex02(HexValue(s))
  {
    var n := HexValue(s);
    if |s| > 2 {
      MinimalHexLength(s);
      ToHexIsTheMinimalForm(s);
    } else {
      var high := s[..1];
      LastDigit(s);
      assert high[..0] == [];
      assert n / 16 == DigitValue(s[0]) < 16;
      SameLengthHexUnique(s, Hex02(n));
    }
  }

  /** The `0x`-prefixed argument `f"0x{n:02x}"` (main.py:111-112). */
  function HexArg(n: int): (a: string)
    ensures |a| >= 3 && a[..2] == "0x"
    ensures 0 <= n ==> |a| >= 4 && HexValue(a[2..]) == n && IsPadded2Hex(a[2..])
    ensures 0 <= n < 256 ==> IsByteArg(a)
  {
    var a := "0x" + Hex02(n);
    assert a[2..] == Hex02(n);
    a
  }

  /** `a` is `0x` followed by exactly two lower-case hexadecimal digits. */
  predicate IsByteArg(a: string) {
    |a| == 4 && a[..2] == "0x" && IsLowerHexDigit(a[2]) && IsLowerHexDigit(a[3])
  }

  /** The characters Python's `str.split()` separates on: those `str.isspace` accepts. */
  predicate IsSpace(c: char) {
    || c == ' ' || '\t' <= c <= '\r' || '\U{001C}' <= c <= '\U{001F}'
    || c == '\U{0085}' || c == '\U{00A0}' || c == '\U{1680}' || '\U{2000}' <= c <= '\U{200A}'
    || c == '\U{2028}' || c == '\U{2029}' || c == '\U{202F}' || c == '\U{205F}' || c == '\U{3000}'
  }

  /** A non-empty string without separators. */
  predicate IsWord(w: string) {
    |w| > 0 && forall i :: 0 <= i < |w| ==> !IsSpace(w[i])
  }

  function DropSpaces(s: string): (r: string)
    ensures |r| <= |s|
    ensures r == [] || !IsSpace(r[0])
  {
    if s != [] && IsSpace(s[0]) then DropSpaces(s[1..]) else s
  }

  /** The number of leading non-separator characters. */
  function WordLength(s: string): (n: nat)
    ensures n <= |s|
    ensures s != [] && !IsSpace(s[0]) ==> n >= 1
    ensures forall i :: 0 <= i < n ==> !IsSpace(s[i])
    ensures n < |s| ==> IsSpace(s[n])
  {
    if s == [] || IsSpace(s[0]) then 0 else 1 + WordLength(s[1..])
  }

  /** The characters of `s` that are not separators, in order. */
  function NonSpace(s: string): (r: string) {
    if s == [] then [] else (if IsSpace(s[0]) then [] else [s[0]]) + NonSpace(s[1..])
  }

  /** The words written one after the other. */
  function Concat(ws: seq<string>): (s: string) {
    if ws == [] then [] else ws[0] + Concat(ws[1..])
  }

  lemma {:induction false} NonSpaceAppend(a: string, b: string)
    ensures NonSpace(a + b) == NonSpace(a) + NonSpace(b)
  {
    if a != [] {
      assert (a + b)[1..] == a[1..] + b;
      NonSpaceAppend(a[1..], b);
    } else {
      assert a + b == b;
    }
  }

  lemma {:induction false} NonSpaceOfRun(w: string)
    requires forall i :: 0 <= i < |w| ==> !IsSpace(w[i])
    ensures NonSpace(w) == w
  {
    if w != [] {
      NonSpaceOfRun(w[1..]);
      assert w == [w[0]] + w[1..];
    }
  }

  lemma {:induction false} NonSpaceOfDropped(s: string)
    ensures NonSpace(DropSpaces(s)) == NonSpace(s)
  {
    if s != [] && IsSpace(s[0]) {
      NonSpaceOfDropped(s[1..]);
    }
  }

  /** `s.split()`: the maximal runs of non-separator characters, in order. Each word is
      non-empty and free of separators, and together they hold every other character of `s`. */
  function Words(s: string): (ws: seq<string>)
    ensures forall i :: 0 <= i < |ws| ==> IsWord(ws[i])
    ensures Concat(ws) == NonSpace(s)
    decreases |s|
  {
    var t := DropSpaces(s);
    NonSpaceOfDropped(s);
    if t == [] then []
    else
      var n := WordLength(t);
      var w, rest := t[..n], Words(t[n..]);
      NonSpaceOfLeadingRun(t, n);
      assert ([w] + rest)[1..] == rest;
      [w] + rest
  }

  /** A leading run of non-separators passes through `NonSpace` unchanged. */
  lemma NonSpaceOfLeadingRun(t: string, n: nat)
    requires n <= |t| && forall i :: 0 <= i < n ==> !IsSpace(t[i])
    ensures NonSpace(t) == t[..n] + NonSpace(t[n..])
  {
    assert t == t[..n] + t[n..];
    NonSpaceAppend(t[..n], t[n..]);
    NonSpaceOfRun(t[..n]);
  }

  /** The words joined by single spaces. */
  function Join(ws: seq<string>): (s: string) {
    if |ws| == 0 then ""
    else if |ws| == 1 then ws[0]
    else ws[0] + " " + Join(ws[1..])
  }

  lemma {:induction false} WordLengthOfWord(w: string, tail: string)
    requires IsWord(w)
    requires tail == [] || IsSpace(tail[0])
    ensures WordLength(w + tail) == |w|
    decreases |w|
  {
    if |w| > 1 {
      assert IsWord(w[1..]);
      assert (w + tail)[1..] == w[1..] + tail;
      WordLengthOfWord(w[1..], tail);
    } else {
      assert (w + tail)[1..] == tail;
    }
  }

  lemma WordsSkipsSeparator(c: char, s: string)
    requires IsSpace(c)
    ensures Words([c] + s) == Words(s)
  {
    assert ([c] + s)[1..] == s;
    assert DropSpaces([c] + s) == DropSpaces(s);
  }

  /** A word followed by a separator and more text splits into that word, then the words of
      the text. */
  lemma WordsOfLeadingWord(w: string, j: string)
    requires IsWord(w)
    ensures Words(w + " " + j) == [w] + Words(j)
  {
    var tail := " " + j;
    var s := w + tail;
    assert w + " " + j == s;
    assert s[0] == w[0];
    assert DropSpaces(s) == s;
    WordLengthOfWord(w, tail);
    assert s[..|w|] == w && s[|w|..] == tail;
    assert Words(s) == [w] + Words(tail);
    WordsSkipsSeparator(' ', j);
  }

  /** A single word splits into itself. */
  lemma WordsOfWord(w: string)
    requires IsWord(w)
    ensures Words(w) == [w]
  {
    WordLengthOfWord(w, "");
    assert w + "" == w;
    assert w[|w|..] == [];
  }

  /** Splitting words joined by single spaces gives the words back. */
  lemma {:induction false} WordsOfJoin(ws: seq<string>)
    requires forall i :: 0 <= i < |ws| ==> IsWord(ws[i])
    ensures Words(Join(ws)) == ws
  {
    if |ws| == 1 {
      WordsOfWord(ws[0]);
    } else if |ws| > 1 {
      assert Join(ws) == ws[0] + " " + Join(ws[1..]);
      WordsOfLeadingWord(ws[0], Join(ws[1..]));
      WordsOfJoin(ws[1..]);
      assert ws == [ws[0]] + ws[1..];
    }
  }

  /** A `ValueError` raised by `set_fan_speed` for a percentage outside [0, 100]. */
  datatype ValueError = InvalidSpeed(pct: int)

  /** The fixed leading words of `IPMI_TEMPLATE` (main.py:46). */
  const TemplateHead: seq<string> := ["sudo", "ipmitool", "raw", "0x3c", "0x30", "0x00"]

  lemma JoinCons(w: string, ws: seq<string>)
    requires |ws| >= 1
    ensures Join([w] + ws) == w + " " + Join(ws)
  {
    assert ([w] + ws)[1..] == ws;
  }

  lemma RegisterWordsText()
    ensures Join(["0x3c", "0x30", "0x00"]) == "0x3c 0x30 0x00"
  {
    assert Join(["0x00"]) == "0x00";
    JoinCons("0x30", ["0x00"]);
    assert ["0x30"] + ["0x00"] == ["0x30", "0x00"];
    assert Join(["0x30", "0x00"]) == "0x30 0x00";
    JoinCons("0x3c", ["0x30", "0x00"]);
    assert ["0x3c"] + ["0x30", "0x00"] == ["0x3c", "0x30", "0x00"];
  }

  lemma RawWordsText()
    ensures Join(["raw", "0x3c", "0x30", "0x00"]) == "raw 0x3c 0x30 0x00"
  {
    RegisterWordsText();
    JoinCons("raw", ["0x3c", "0x30", "0x00"]);
    assert ["raw"] + ["0x3c", "0x30", "0x00"] == ["raw", "0x3c", "0x30", "0x00"];
  }

  lemma ToolWordsText()
    ensures Join(["ipmitool", "raw", "0x3c", "0x30", "0x00"]) == "ipmitool raw 0x3c 0x30 0x00"
  {
    RawWordsText();
    JoinCons("ipmitool", ["raw", "0x3c", "0x30", "0x00"]);
    assert ["ipmitool"] + ["raw", "0x3c", "0x30", "0x00"] == ["ipmitool", "raw", "0x3c", "0x30", "0x00"];
  }

  /** The fixed text of the template is its leading words joined by single spaces. */
  lemma TemplateHeadText()
    ensures Join(TemplateHead) == "sudo ipmitool raw 0x3c 0x30 0x00"
  {
    ToolWordsText();
    JoinCons("sudo", ["ipmitool", "raw", "0x3c", "0x30", "0x00"]);
    assert ["sudo"] + ["ipmitool", "raw", "0x3c", "0x30", "0x00"] == TemplateHead;
    assert "sudo" + " " + "ipmitool raw 0x3c 0x30 0x00" == "sudo ipmitool raw 0x3c 0x30 0x00";
  }

  /** `IPMI_TEMPLATE.format(fan_id=..., speed=...)` (main.py:46, 110-113): the fixed text, then
      the fan argument and the speed argument, each after one space. */
  function RenderCommand(fanArg: string, speedArg: string): (r: string)
    ensures r == "sudo ipmitool raw 0x3c 0x30 0x00 " + fanArg + " " + speedArg
  {
    TemplateHeadText();
    Join(TemplateHead) + " " + fanArg + " " + speedArg
  }

  lemma HexArgIsWord(n: int)
    ensures IsWord(HexArg(n))
  {
    var h := Hex02(n);
    var a := HexArg(n);
    forall i | 0 <= i < |a|
      ensures !IsSpace(a[i])
    {
      if i >= 2 {
        assert a[i] == h[i - 2];
      }
    }
  }

  /** Joining two non-empty lists of words is joining each and putting a space between. */
  lemma {:induction false} JoinAppend(a: seq<string>, b: seq<string>)
    requires |a| >= 1 && |b| >= 1
    ensures Join(a + b) == Join(a) + " " + Join(b)
  {
    if |a| > 1 {
      assert (a + b)[1..] == a[1..] + b;
      JoinAppend(a[1..], b);
    } else {
      assert (a + b)[1..] == b;
    }
  }

  lemma RenderIsJoin(fanArg: string, speedArg: string)
    ensures RenderCommand(fanArg, speedArg) == Join(TemplateHead + [fanArg, speedArg])
  {
    JoinAppend(TemplateHead, [fanArg, speedArg]);
    assert [fanArg, speedArg][1..] == [speedArg];
  }

  /** Splitting the rendered command gives the template's words, then the two arguments. */
  lemma SplitRendered(fanArg: string, speedArg: string)
    requires IsWord(fanArg) && IsWord(speedArg)
    ensures Words(RenderCommand(fanArg, speedArg)) == TemplateHead + [fanArg, speedArg]
  {
    var ws := TemplateHead + [fanArg, speedArg];
    RenderIsJoin(fanArg, speedArg);
    assert forall i :: 0 <= i < |ws| ==> IsWord(ws[i]);
    WordsOfJoin(ws);
  }

  /** The range check and `cmd.split()` of `set_fan_speed` (main.py:104-113, 118): a percentage
      outside [0, 100] is rejected; otherwise the argument vector is the six fixed template words
      followed by the fan id and the percentage, each as `0x` and at least two lower-case hex
      digits that decode back to the number. */
  function FanSpeedCommand(fan: int, pct: int): (r: Result<seq<string>, ValueError>)
    ensures r.Failure? <==> !(0 <= pct <= 100)
    ensures r.Failure? ==> r.error == InvalidSpeed(pct)
    ensures r.Success? ==> |r.value| == 8 && r.value[..6] == TemplateHead
    ensures r.Success? ==> IsByteArg(r.value[7]) && HexValue(r.value[7][2..]) == pct
    ensures r.Success? && 0 <= fan ==>
              && |r.value[6]| >= 4 && r.value[6][..2] == "0x"
              && IsPadded2Hex(r.value[6][2..]) && HexValue(r.value[6][2..]) == fan
    ensures r.Success? && 0 <= fan < 256 ==> IsByteArg(r.value[6])
  {
    if !(0 <= pct <= 100) then Failure(InvalidSpeed(pct))
    else
      var fanArg, speedArg := HexArg(fan), HexArg(pct);
      HexArgIsWord(fan);
      HexArgIsWord(pct);
      SplitRendered(fanArg, speedArg);
      var argv := Words(RenderCommand(fanArg, speedArg));
      TemplateThenArgs(argv, fanArg, speedArg);
      Success(argv)
  }

  /** The template words followed by two arguments: eight words, the arguments last. */
  lemma TemplateThenArgs(argv: seq<string>, fanArg: string, speedArg: string)
    requires argv == TemplateHead + [fanArg, speedArg]
    ensures |argv| == 8 && argv[..6] == TemplateHead && argv[6] == fanArg && argv[7] == speedArg
  {
  }
}
