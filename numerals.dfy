/** The numeral converter `chinese_to_number`: ASCII digit strings and the
    numeral words 零 to 十 (with 两 for 2) and their 十 constructions. */
module Numerals {
  import opened Results
  import opened Text

  /** The numeral table: one character to its value. */
  const Table: map<char, nat> := map[
    '零' := 0, '一' := 1, '二' := 2, '两' := 2, '三' := 3, '四' := 4,
    '五' := 5, '六' := 6, '七' := 7, '八' := 8, '九' := 9, '十' := 10
  ]

  /** `table[key]` with a string key: only one-character strings can be keys. */
  function Lookup(key: string): (r: Result<nat>)
    ensures r.Ok? <==> |key| == 1 && key[0] in Table
    ensures r.Ok? ==> r.value <= 10
    ensures r.Err? ==> r.error == NumeralKeyError
  {
    if |key| == 1 && key[0] in Table then Ok(Table[key[0]]) else Err(NumeralKeyError)
  }

  predicate IsAsciiDigit(c: char)
  {
    '0' <= c <= '9'
  }

  /** `cn.isdigit()` on the characters that can reach the converter. */
  predicate IsDigitString(s: string)
  {
    |s| > 0 && forall i :: 0 <= i < |s| ==> IsAsciiDigit(s[i])
  }

  /** `int(cn)` on a string of ASCII digits. */
  function DecimalValue(s: string): nat
    requires forall i :: 0 <= i < |s| ==> IsAsciiDigit(s[i])
    decreases |s|
  {
    if |s| == 0 then 0
    else 10 * DecimalValue(s[..|s| - 1]) + DigitValue(s[|s| - 1])
  }

  function DigitValue(c: char): (v: nat)
    requires IsAsciiDigit(c)
    ensures v <= 9
  {
    c as int - '0' as int
  }

  /** `chinese_to_number`: each branch in the order the source tests it. */
  function ChineseToNumber(cn: string): (r: Result<nat>)
    ensures r.Err? ==> r.error == NumeralKeyError && '十' in cn && cn != "十"
  {
    if IsDigitString(cn) then Ok(DecimalValue(cn))
    else if cn == "十" then Ok(10)
    else if |cn| > 0 && cn[0] == '十' then
      var units :- Lookup(cn[1..]);
      Ok(10 + units)
    else if |cn| > 0 && cn[|cn| - 1] == '十' then
      var tens :- Lookup(cn[..1]);
      Ok(tens * 10)
    else if '十' in cn then
      var parts := Split(cn, '十');
      var tens :- Lookup(parts[0]);
      var units :- Lookup(parts[1]);
      Ok(tens * 10 + units)
    else if |cn| == 1 && cn[0] in Table then Ok(Table[cn[0]])
    else Ok(0)
  }

  /** The conventional way of writing 0 to 99 in numeral words. */
  function Spell(n: nat): string
    requires n <= 99
  {
    if n == 0 then "零"
    else if n < 10 then [Digit(n)]
    else if n == 10 then "十"
    else if n < 20 then ['十', Digit(n - 10)]
    else if n % 10 == 0 then [Digit(n / 10), '十']
    else [Digit(n / 10), '十', Digit(n % 10)]
  }

  /** The numeral word for 1 to 9. */
  function Digit(d: nat): (c: char)
    requires 1 <= d <= 9
    ensures c in Table && Table[c] == d && c != '十'
  {
    "一二三四五六七八九"[d - 1]
  }

  /** The decimal spelling of `n`, as `str(n)` writes it. */
  function DecimalString(n: nat): string
    decreases n
  {
    if n < 10 then [('0' as int + n) as char]
    else DecimalString(n / 10) + [('0' as int + n % 10) as char]
  }

  /** `十` followed by a unit word. */
  lemma TeenRoundTrip(n: nat)
    requires 10 < n < 20
    ensures ChineseToNumber(Spell(n)) == Ok(n)
  {
    var s := Spell(n);
    assert !IsDigitString(s) by { assert !IsAsciiDigit(s[0]); }
    assert s[1..] == [Digit(n - 10)];
  }

  /** A tens word followed by `十`. */
  lemma TensRoundTrip(n: nat)
    requires 20 <= n <= 99 && n % 10 == 0
    ensures ChineseToNumber(Spell(n)) == Ok(n)
  {
    var s := Spell(n);
    assert !IsDigitString(s) by { assert !IsAsciiDigit(s[0]); }
    assert s[..1] == [Digit(n / 10)];
  }

  /** A tens word, `十`, and a unit word: the split gives the two words. */
  lemma CompoundRoundTrip(n: nat)
    requires 20 <= n <= 99 && n % 10 != 0
    ensures ChineseToNumber(Spell(n)) == Ok(n)
  {
    var s := Spell(n);
    var a, b := Digit(n / 10), Digit(n % 10);
    assert s == [a, '十', b];
    assert !IsDigitString(s) by { assert !IsAsciiDigit(s[0]); }
    assert s[1..] == ['十', b];
    assert s[1..][1..] == [b];
    assert [b][1..] == [] && [b] + "" == [b];
    assert Split([b], '十') == [[b]];
    assert [a] + [] == [a];
    assert Split(s[1..], '十') == [[], [b]];
    assert Split(s, '十') == [[a], [b]];
  }

  /** Every numeral word for 0 to 99 converts to its value. */
  lemma SpelledNumbersRoundTrip(n: nat)
    requires n <= 99
    ensures ChineseToNumber(Spell(n)) == Ok(n)
  {
    if 10 < n < 20 {
      TeenRoundTrip(n);
    } else if 20 <= n && n % 10 == 0 {
      TensRoundTrip(n);
    } else if 20 <= n {
      CompoundRoundTrip(n);
    } else {
      var s := Spell(n);
      assert !IsDigitString(s) by { assert !IsAsciiDigit(s[0]); }
    }
  }

  /** ASCII digit strings convert to their decimal value, and `str(n)` comes
      back as `n`. */
  lemma {:induction false} DecimalRoundTrip(n: nat)
    ensures IsDigitString(DecimalString(n))
    ensures ChineseToNumber(DecimalString(n)) == Ok(n)
    decreases n
  {
    var s := DecimalString(n);
    if n < 10 {
      assert s[..|s| - 1] == [];
      assert DecimalValue(s) == n;
    } else {
      DecimalRoundTrip(n / 10);
      var p := DecimalString(n / 10);
      assert s[..|s| - 1] == p;
      assert DecimalValue(p) == n / 10;
      assert DigitValue(s[|s| - 1]) == n % 10;
      assert DecimalValue(s) == 10 * (n / 10) + n % 10;
      assert IsDigitString(s);
    }
  }

  /** A token without 十 never fails: a digit string gives its decimal value,
      a table character its table value, and anything else 0. */
  lemma NoTenNeverFails(cn: string)
    requires '十' !in cn
    ensures ChineseToNumber(cn).Ok?
    ensures ChineseToNumber(cn).value ==
      if IsDigitString(cn) then DecimalValue(cn)
      else if |cn| == 1 && cn[0] in Table then Table[cn[0]]
      else 0
  {
    if |cn| > 0 {
      assert cn[0] in cn && cn[|cn| - 1] in cn;
    }
  }

  /** Without digits, no token converts to more than 99. */
  lemma WordValueAtMost99(cn: string)
    requires !IsDigitString(cn) && ChineseToNumber(cn).Ok?
    ensures ChineseToNumber(cn).value <= 99
  {
    if cn != "十" && |cn| > 0 && cn[0] != '十' && cn[|cn| - 1] != '十' && '十' in cn {
      var parts := Split(cn, '十');
      SplitJoin(cn, '十');
      assert '十' !in parts[0] && '十' !in parts[1];
      assert Lookup(parts[0]).Ok? && Lookup(parts[1]).Ok?;
    }
  }

  /** Doubled 十 reads as 10 + 10, and before a final 十 only the first
      character counts. */
  lemma TenEdgeCases()
    ensures ChineseToNumber("十十") == Ok(20)
    ensures ChineseToNumber("三四十") == Ok(30)
    ensures ChineseToNumber("两") == Ok(2)
  {
    assert !IsDigitString("十十") by { assert !IsAsciiDigit("十十"[0]); }
    assert !IsDigitString("三四十") by { assert !IsAsciiDigit("三四十"[0]); }
    assert !IsDigitString("两") by { assert !IsAsciiDigit("两"[0]); }
    assert "十十"[1..] == "十";
    assert "三四十"[..1] == "三";
  }

  /** A token outside the table and without 十 reads as 0. */
  lemma UnknownTokensAreZero()
    ensures ChineseToNumber("一百") == Ok(0)
    ensures ChineseToNumber("百") == Ok(0)
    ensures ChineseToNumber("1二") == Ok(0)
  {
    assert !IsDigitString("一百") by { assert !IsAsciiDigit("一百"[0]); }
    assert !IsDigitString("百") by { assert !IsAsciiDigit("百"[0]); }
    assert !IsDigitString("1二") by { assert !IsAsciiDigit("1二"[1]); }
    NoTenNeverFails("一百");
    NoTenNeverFails("百");
    NoTenNeverFails("1二");
  }

  /** A 十 token whose other part is not a table key raises the key error. */
  lemma KeyErrorCases()
    ensures ChineseToNumber("十百") == Err(NumeralKeyError)
    ensures ChineseToNumber("1十") == Err(NumeralKeyError)
  {
    assert !IsDigitString("十百") by { assert !IsAsciiDigit("十百"[0]); }
    assert !IsDigitString("1十") by { assert !IsAsciiDigit("1十"[1]); }
    assert "十百"[1..] == "百";
    assert "1十"[..1] == "1";
  }

  /** With 十 in the middle, an empty piece between two 十 is a missing key. */
  lemma DoubleTenInsideFails()
    ensures ChineseToNumber("二十十三") == Err(NumeralKeyError)
  {
    var s := "二十十三";
    assert !IsDigitString(s) by { assert !IsAsciiDigit(s[0]); }
    assert '十' in s by { assert s[1] == '十'; }
    assert s[3..] == "三" && s[3..][1..] == [];
    assert "三" + "" == "三";
    assert s[2..] == "十三" && s[2..][1..] == s[3..];
    assert s[1..] == "十十三" && s[1..][1..] == s[2..];
    assert Split(s[3..], '十') == ["三"];
    assert Split(s[2..], '十') == ["", "三"];
    assert Split(s[1..], '十') == ["", "", "三"];
    assert "二" + "" == "二";
    assert Split(s, '十') == ["二", "", "三"];
  }
}
