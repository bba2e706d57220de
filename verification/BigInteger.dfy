/** The java.math.BigInteger printer of the Dubbo bridge: base-2^32 magnitude words become nine-digit
    groups by repeated in-place long division, and the groups become a signed decimal numeral. */
module BigInteger {
  import opened Common
  import opened Hessian
  import opened Numerals

  ghost predicate AreWords(words: seq<int>) {
    forall i :: 0 <= i < |words| ==> 0 <= words[i] < WORD_BASE
  }

  ghost predicate AreGroups(groups: seq<int>) {
    forall i :: 0 <= i < |groups| ==> 0 <= groups[i] < GROUP_BASE
  }

  /** Everything before `from` is zero, and the word at `from`, if any, is not. */
  ghost predicate Trimmed(words: seq<int>, from: nat) {
    && from <= |words|
    && (forall i :: 0 <= i < from ==> words[i] == 0)
    && (from < |words| ==> words[from] != 0)
  }

  lemma DivisionStep(whole: int, quotient: int, remainder: int, word: int, digit: int, left: int)
    requires whole == quotient * GROUP_BASE + remainder
    requires remainder * WORD_BASE + word == digit * GROUP_BASE + left
    ensures whole * WORD_BASE + word == (quotient * WORD_BASE + digit) * GROUP_BASE + left
  {
  }

  /** The words before `i` have been divided, the others have not. */
  ghost predicate Divided(before: seq<int>, now: seq<int>, i: nat, remainder: int) {
    && i <= |before| == |now| && AreWords(before) && AreWords(now)
    && 0 <= remainder < GROUP_BASE
    && WordsValue(before[..i]) == WordsValue(now[..i]) * GROUP_BASE + remainder
    && now[i..] == before[i..]
  }

  lemma {:induction false} DivideDigit(before: seq<int>, now: seq<int>, i: nat, remainder: int, digit: int, left: int)
    requires Divided(before, now, i, remainder) && i < |now|
    requires 0 <= digit < WORD_BASE && 0 <= left < GROUP_BASE
    requires remainder * WORD_BASE + now[i] == digit * GROUP_BASE + left
    ensures Divided(before, now[i := digit], i + 1, left)
  {
    var after := now[i := digit];
    assert now[i] == now[i..][0] == before[i..][0] == before[i];
    assert after[..i] == now[..i];
    assert after[i + 1..] == now[i..][1..] && before[i + 1..] == before[i..][1..];
    WordsStep(before, i);
    WordsStep(after, i);
    DivisionStep(WordsValue(before[..i]), WordsValue(now[..i]), remainder, before[i], digit, left);
  }

  /** No step leaves 64 bits, and the next digit is a word. */
  lemma DigitFits(remainder: int, word: int)
    requires 0 <= remainder < GROUP_BASE && 0 <= word < WORD_BASE
    ensures 0 <= remainder * WORD_BASE + word < TWO_TO_64
    ensures 0 <= (remainder * WORD_BASE + word) / GROUP_BASE < WORD_BASE
  {
  }

  /** The division of one word, with what is carried over from the words before. The `uint64` locals make
      the absence of 64-bit overflow part of what is proved. */
  method DivideOne(remainder: uint64, word: uint64) returns (digit: uint64, left: uint64)
    requires remainder < GROUP_BASE && word < WORD_BASE
    ensures digit < WORD_BASE && left < GROUP_BASE
    ensures remainder * WORD_BASE + word == digit * GROUP_BASE + left
  {
    DigitFits(remainder, word);
    var tmpDividend: uint64 := remainder * WORD_BASE + word;
    digit := tmpDividend / GROUP_BASE;
    left := tmpDividend - digit * GROUP_BASE;
  }

  /** One in-place long division by 10^9. */
  method DivideByWord(values: array<uint64>, from: nat) returns (remainder: uint64, newFrom: nat)
    requires AreWords(values[..])
    requires from <= values.Length
    requires forall i :: 0 <= i < from ==> values[i] == 0
    modifies values
    ensures AreWords(values[..])
    ensures remainder < GROUP_BASE
    ensures old(WordsValue(values[..])) == WordsValue(values[..]) * GROUP_BASE + remainder
    ensures from <= newFrom && Trimmed(values[..], newFrom)
  {
    ghost var before: seq<int> := values[..];
    ghost var now := before;
    remainder, newFrom := 0, from;
    var previousNonZero := false;
    WordsNonNegative(before[..from]);
    for i := from to values.Length
      invariant now == values[..] && Divided(before, now, i, remainder)
      invariant from <= newFrom <= i
      invariant forall j :: 0 <= j < newFrom ==> now[j] == 0
      invariant if previousNonZero then newFrom < i && now[newFrom] != 0 else newFrom == i
    {
      assert values[i] == now[i];
      var tmpResult, tmpRemainder := DivideOne(remainder, values[i]);
      DivideDigit(before, now, i, remainder, tmpResult, tmpRemainder);
      if tmpResult == 0 {
        if !previousNonZero {
          newFrom := i + 1;
        }
      } else {
        previousNonZero := true;
      }
      values[i] := tmpResult;
      remainder := tmpRemainder;
      now := now[i := tmpResult];
    }
    assert before[..values.Length] == before && now[..values.Length] == now;
  }

  lemma GroupsStep(groups: seq<int>, value: int, quotient: int, remainder: int)
    requires value == quotient * GROUP_BASE + remainder
    ensures GroupsValue(groups + [remainder]) + Pow(GROUP_BASE, |groups| + 1) * quotient
         == GroupsValue(groups) + Pow(GROUP_BASE, |groups|) * value
  {
    GroupsAppend(groups, remainder);
    Regroup(Pow(GROUP_BASE, |groups|), Pow(GROUP_BASE, |groups| + 1), GROUP_BASE, value, quotient, remainder);
  }

  lemma Regroup(p: int, next: int, b: int, v: int, q: int, r: int)
    requires next == b * p && v == q * b + r
    ensures p * v == next * q + p * r
  {
    assert p * (q * b) == (b * p) * q;
  }

  /** What trimming says about the value: zero exactly when nothing is left. */
  lemma TrimmedValue(words: seq<int>, from: nat)
    requires AreWords(words) && Trimmed(words, from)
    ensures WordsValue(words) >= 0 && (WordsValue(words) == 0 <==> from == |words|)
  {
    WordsNonNegative(words);
    if from < |words| { assert words[from] > 0; }
  }

  /** The division loop: little-endian groups that denote the same number as the words. */
  method Groups(values: array<uint64>) returns (groups: seq<uint64>)
    requires AreWords(values[..])
    modifies values
    ensures AreGroups(groups)
    ensures GroupsValue(groups) == old(WordsValue(values[..]))
    ensures (groups == []) == (values.Length == 0)
    ensures old(WordsValue(values[..])) > 0 ==> groups[|groups| - 1] > 0
    ensures old(WordsValue(values[..])) == 0 && groups != [] ==> groups == [0]
  {
    ghost var magnitude := WordsValue(values[..]);
    WordsNonNegative(values[..]);
    groups := [];
    var from := 0;
    ghost var value := magnitude;
    while from < values.Length
      invariant AreWords(values[..]) && AreGroups(groups)
      invariant value == WordsValue(values[..]) >= 0
      invariant GroupsValue(groups) + Pow(GROUP_BASE, |groups|) * value == magnitude
      invariant groups == [] ==> from == 0 && value == magnitude
      invariant groups != [] ==> Trimmed(values[..], from) && values.Length > 0
      invariant groups != [] && from == values.Length && magnitude > 0 ==> groups[|groups| - 1] > 0
      invariant groups != [] && magnitude == 0 ==> groups == [0] && from == values.Length
      decreases value, values.Length - from
    {
      if groups != [] { TrimmedValue(values[..], from); }
      ghost var previous := value;
      var remainder;
      remainder, from := DivideByWord(values, from);
      TrimmedValue(values[..], from);
      value := WordsValue(values[..]);
      GroupsStep(groups, previous, value, remainder);
      groups := groups + [remainder];
    }
    if groups != [] { TrimmedValue(values[..], from); }
    assert groups == [] ==> values[..] == [];
  }

  /** The numeral of little-endian groups, most significant group first. */
  ghost function GroupText(groups: seq<int>): string
    requires AreGroups(groups) && groups != []
  {
    if |groups| == 1 then Decimal(groups[0])
    else GroupText(groups[1..]) + FillZero(Decimal(groups[0]), 9)
  }

  lemma NineDigits()
    ensures Pow(10, 9) == GROUP_BASE
  {
    assert Pow(10, 2) == 100 && Pow(10, 4) == 10_000 && Pow(10, 6) == 1_000_000 && Pow(10, 8) == 100_000_000;
  }

  lemma {:induction false} AppendGroup(high: nat, low: nat)
    requires 0 < high && low < GROUP_BASE
    ensures Decimal(high * GROUP_BASE + low) == Decimal(high) + FillZero(Decimal(low), 9)
  {
    NineDigits();
    FillZeroIsLowDigits(low, 9);
    DecimalSplit(high, low, 9);
  }

  /** Zero-filled concatenation of the groups is the decimal numeral of what they denote. */
  lemma {:induction false} GroupTextIsDecimal(groups: seq<int>)
    requires AreGroups(groups) && groups != []
    requires groups[|groups| - 1] > 0 || groups == [0]
    ensures GroupsValue(groups) >= 0 && GroupText(groups) == Decimal(GroupsValue(groups))
    ensures groups != [0] ==> GroupsValue(groups) > 0
  {
    if |groups| == 1 {
      assert groups[1..] == [];
    } else {
      GroupTextIsDecimal(groups[1..]);
      var high := GroupsValue(groups[1..]);
      assert high > 0;
      AppendGroup(high, groups[0]);
    }
  }

  /** `rbegin()` to `rend()` over the groups, every group but the first filled to nine digits. */
  method AppendGroups(sign: string, groups: seq<uint64>) returns (text: string)
    requires AreGroups(groups)
    ensures text == if groups == [] then sign else sign + GroupText(groups)
  {
    text := sign;
    var i := |groups|;
    while i > 0
      invariant 0 <= i <= |groups|
      invariant text == if i == |groups| then sign else sign + GroupText(groups[i..])
    {
      i := i - 1;
      var tmp := Decimal(groups[i]);
      if i != |groups| - 1 {
        tmp := FillZero(tmp, 9);
        assert groups[i..][1..] == groups[i + 1..];
        assert sign + GroupText(groups[i + 1..]) + tmp == sign + (GroupText(groups[i + 1..]) + tmp);
      }
      text := text + tmp;
    }
    assert groups != [] ==> groups[0..] == groups;
  }

  /** Text to int64 as absl::SimpleAtoi reads it (no surrounding blanks occur here). */
  function SimpleAtoi(s: string): Option<int> {
    var digits := if s != "" && s[0] == '-' then s[1..] else s;
    if digits == "" || !AllDigits(digits) then None
    else
      var n := NumeralValue(digits);
      var v: int := if digits == s then n else 0 - n;
      if InInt64(v) then Some(v) else None
  }

  predicate InInt64(v: int) { -0x8000_0000_0000_0000 <= v < 0x8000_0000_0000_0000 }

  lemma AtoiOfDigits(negative: bool, digits: string)
    requires digits != "" && AllDigits(digits)
    ensures
      var v: int := if negative then 0 - NumeralValue(digits) else NumeralValue(digits);
      SimpleAtoi((if negative then "-" else "") + digits) == if InInt64(v) then Some(v) else None
  {
    var text := (if negative then "-" else "") + digits;
    if negative {
      assert text[0] == '-' && text[1..] == digits;
    } else {
      assert text == digits && IsDigit(text[0]);
    }
  }

  /** A signed numeral is read as its value exactly when that is an int64. */
  lemma {:induction false} AtoiOfNumeral(negative: bool, n: nat)
    ensures
      var v: int := if negative then 0 - n else n;
      SimpleAtoi((if negative then "-" else "") + Decimal(n)) == if InInt64(v) then Some(v) else None
  {
    AtoiOfDigits(negative, Decimal(n));
    DecimalRoundTrip(n);
  }

  /** What the converter has to write for a nonzero signum and the given magnitude words. */
  ghost function SignedNumber(negative: bool, words: seq<int>): Event
    requires AreWords(words)
  {
    WordsNonNegative(words);
    var magnitude: nat := WordsValue(words);
    var value: int := if negative then 0 - magnitude else magnitude;
    var sign := if negative then "-" else "";
    if words == [] then WriteString(sign)
    else if InInt64(value) then WriteInt(value)
    else WriteString(sign + Decimal(magnitude))
  }

  /** The text of the groups is read as an int64 exactly when the words are one. */
  lemma TextIsRead(negative: bool, words: seq<int>, groups: seq<int>)
    requires AreWords(words) && AreGroups(groups) && groups != [] && words != []
    requires GroupsValue(groups) == WordsValue(words)
    requires groups[|groups| - 1] > 0 || groups == [0]
    ensures
      var text := (if negative then "-" else "") + GroupText(groups);
      SignedNumber(negative, words) ==
        match SimpleAtoi(text) case Some(v) => WriteInt(v) case None => WriteString(text)
  {
    WordsNonNegative(words);
    GroupTextIsDecimal(groups);
    AtoiOfNumeral(negative, WordsValue(words));
  }

  /** From words to the JSON event: an int64 when the value fits, its exact decimal numeral when not. */
  method PrintWords(negative: bool, values: array<uint64>) returns (event: Event)
    requires AreWords(values[..])
    modifies values
    ensures event == SignedNumber(negative, old(values[..]))
  {
    ghost var words := values[..];
    WordsNonNegative(words);
    var sign := if negative then "-" else "";
    var groups := Groups(values);
    var text := AppendGroups(sign, groups);
    if groups != [] {
      TextIsRead(negative, words, groups);
    } else {
      assert words == [] && text == sign;
    }
    var parsed := SimpleAtoi(text);
    event := if parsed.Some? then WriteInt(parsed.value) else WriteString(text);
  }

  /** Index of the last field called `name`, or -1. */
  function LastIndex(names: seq<string>, name: string): (i: int)
    ensures -1 <= i < |names|
    ensures i >= 0 ==> names[i] == name
    ensures forall j :: i < j < |names| ==> names[j] != name
  {
    if names == [] then -1
    else if names[|names| - 1] == name then |names| - 1
    else LastIndex(names[..|names| - 1], name)
  }

  function Masked(v: int32): (w: uint64)
    ensures w < WORD_BASE
    ensures w == v || w == v + WORD_BASE
  {
    v % WORD_BASE
  }

  predicate AllIntegers(items: seq<Value>) {
    forall i :: 0 <= i < |items| ==> items[i].Integer?
  }

  function MaskedWords(items: seq<Value>): (words: seq<uint64>)
    requires AllIntegers(items)
    ensures |words| == |items| && AreWords(words)
  {
    seq(|items|, i requires 0 <= i < |items| => Masked(items[i].i))
  }

  /** The event for any instance, well formed or not. */
  ghost function BigIntegerJson(instance: ClassInstance): Event {
    var mag := LastIndex(instance.fieldNames, "mag");
    var sig := LastIndex(instance.fieldNames, "signum");
    if mag < 0 || sig < 0 || mag >= |instance.data| || sig >= |instance.data| then WriteNull
    else if !instance.data[sig].Integer? then WriteNull
    else if instance.data[sig].i == 0 then WriteInt(0)
    else if !instance.data[mag].TypedList? then WriteNull
    else if !AllIntegers(instance.data[mag].elements) then WriteNull
    else SignedNumber(instance.data[sig].i < 0, MaskedWords(instance.data[mag].elements))
  }

  // ------------------------------------------------------------------ what is to be written, outright

  /** The sum of (item mod 2^32) * 2^(32 * (n - 1 - i)). */
  function Magnitude(items: seq<Value>): nat
    requires AllIntegers(items)
  {
    if items == [] then 0
    else (items[0].i % 0x1_0000_0000) * Pow(0x1_0000_0000, |items| - 1) + Magnitude(items[1..])
  }

  /** The sum of digit * 10^(n - 1 - i). */
  function TextValue(s: string): int {
    if s == "" then 0 else (s[0] as int - '0' as int) * Pow(10, |s| - 1) + TextValue(s[1..])
  }

  /** A decimal numeral without a leading zero that reads back as `n`. */
  predicate Spells(s: string, n: int) {
    && s != "" && (forall i :: 0 <= i < |s| ==> '0' <= s[i] <= '9')
    && s[0] != '0' && TextValue(s) == n
  }

  /** An int64 is written as a number, anything else as its numeral, with a '-' exactly when negative. */
  predicate WritesNumber(event: Event, v: int) {
    if -0x8000_0000_0000_0000 <= v < 0x8000_0000_0000_0000 then event == WriteInt(v)
    else
      && event.WriteString?
      && (v < 0 ==> event.s != "" && event.s[0] == '-' && Spells(event.s[1..], -v))
      && (v > 0 ==> Spells(event.s, v))
  }

  predicate LastNamed(names: seq<string>, name: string, i: nat) {
    i < |names| && names[i] == name && forall j :: i < j < |names| ==> names[j] != name
  }

  predicate Unnamed(names: seq<string>, name: string) {
    forall i :: 0 <= i < |names| ==> names[i] != name
  }

  /** With the magnitude at `m` and the sign at `s`. */
  predicate WrittenFor(data: seq<Value>, m: nat, s: nat, event: Event) {
    if m >= |data| || s >= |data| || !data[s].Integer? then event == WriteNull
    else if data[s].i == 0 then event == WriteInt(0)
    else if !data[m].TypedList? || !AllIntegers(data[m].elements) then event == WriteNull
    else if data[m].elements == [] then event == WriteString(if data[s].i < 0 then "-" else "")
    else
      var n: int := Magnitude(data[m].elements);
      WritesNumber(event, if data[s].i > 0 then n else -n)
  }

  ghost predicate Written(instance: ClassInstance, event: Event) {
    var names := instance.fieldNames;
    && (Unnamed(names, "mag") || Unnamed(names, "signum") ==> event == WriteNull)
    && forall m: nat, s: nat :: LastNamed(names, "mag", m) && LastNamed(names, "signum", s)
         ==> WrittenFor(instance.data, m, s, event)
  }

  lemma MagnitudeStep(first: int, power: int, rest: int, last: int)
    ensures first * (0x1_0000_0000 * power) + (rest * 0x1_0000_0000 + last)
         == (first * power + rest) * 0x1_0000_0000 + last
  {
  }

  lemma {:induction false} MagnitudeAppend(items: seq<Value>, x: Value)
    requires AllIntegers(items) && x.Integer?
    ensures AllIntegers(items + [x])
    ensures Magnitude(items + [x]) == Magnitude(items) * 0x1_0000_0000 + x.i % 0x1_0000_0000
  {
    if items == [] {
      assert items + [x] == [x] && Magnitude([x][1..]) == 0 && Pow(0x1_0000_0000, 0) == 1;
    } else {
      MagnitudeAppend(items[1..], x);
      assert (items + [x])[1..] == items[1..] + [x];
      MagnitudeStep(items[0].i % 0x1_0000_0000, Pow(0x1_0000_0000, |items| - 1), Magnitude(items[1..]),
                    x.i % 0x1_0000_0000);
    }
  }

  lemma {:induction false} MagnitudeOfWords(items: seq<Value>)
    requires AllIntegers(items)
    ensures WordsValue(MaskedWords(items)) == Magnitude(items)
  {
    if items != [] {
      var front, last := items[..|items| - 1], items[|items| - 1];
      MagnitudeOfWords(front);
      MagnitudeAppend(front, last);
      assert items == front + [last];
      var words: seq<int> := MaskedWords(items);
      assert words[..|words| - 1] == MaskedWords(front);
    }
  }

  lemma {:induction false} TextValueAppend(s: string, c: char)
    ensures TextValue(s + [c]) == 10 * TextValue(s) + (c as int - '0' as int)
  {
    if s == "" {
      assert s + [c] == [c] && TextValue([c][1..]) == 0 && Pow(10, 0) == 1;
    } else {
      TextValueAppend(s[1..], c);
      assert (s + [c])[1..] == s[1..] + [c];
      var d, p := s[0] as int - '0' as int, Pow(10, |s| - 1);
      assert d * (10 * p) == 10 * (d * p);
    }
  }

  lemma {:induction false} TextValueOfNumeral(s: string)
    requires AllDigits(s)
    ensures TextValue(s) == NumeralValue(s)
  {
    if s != "" {
      var front, last := s[..|s| - 1], s[|s| - 1];
      TextValueOfNumeral(front);
      TextValueAppend(front, last);
      assert s == front + [last];
    }
  }

  lemma {:induction false} DecimalSpells(n: nat)
    requires n > 0
    ensures Spells(Decimal(n), n)
  {
    TextValueOfNumeral(Decimal(n));
    DecimalRoundTrip(n);
    var s := Decimal(n);
    assert forall i :: 0 <= i < |s| ==> IsDigit(s[i]);
  }

  lemma {:induction false} SignedNumberWrites(negative: bool, items: seq<Value>)
    requires AllIntegers(items) && items != []
    ensures WritesNumber(SignedNumber(negative, MaskedWords(items)),
                         if negative then 0 - Magnitude(items) else Magnitude(items))
  {
    MagnitudeOfWords(items);
    if Magnitude(items) > 0 {
      var n := Magnitude(items);
      DecimalSpells(n);
      assert ("-" + Decimal(n))[1..] == Decimal(n) && "" + Decimal(n) == Decimal(n);
    }
  }

  lemma LastNamedUnique(names: seq<string>, name: string, i: nat)
    ensures LastNamed(names, name, i) ==> LastIndex(names, name) == i
    ensures Unnamed(names, name) ==> LastIndex(names, name) == -1
  {
  }

  lemma JsonIsWritten(instance: ClassInstance)
    ensures Written(instance, BigIntegerJson(instance))
  {
    var names, data := instance.fieldNames, instance.data;
    LastNamedUnique(names, "mag", 0);
    LastNamedUnique(names, "signum", 0);
    forall m: nat, s: nat | LastNamed(names, "mag", m) && LastNamed(names, "signum", s)
      ensures WrittenFor(data, m, s, BigIntegerJson(instance))
    {
      LastNamedUnique(names, "mag", m);
      LastNamedUnique(names, "signum", s);
      if m < |data| && data[m].TypedList? && AllIntegers(data[m].elements) && data[m].elements != [] && s < |data| {
        if data[s].Integer? && data[s].i != 0 {
          SignedNumberWrites(data[s].i < 0, data[m].elements);
        }
      }
    }
  }

  /** The loop that looks for the two fields. */
  method FindFields(names: seq<string>) returns (magIndex: nat, sigIndex: nat, hasMag: bool, hasSig: bool)
    ensures LastIndex(names, "mag") == if hasMag then magIndex else -1
    ensures LastIndex(names, "signum") == if hasSig then sigIndex else -1
  {
    magIndex, sigIndex, hasMag, hasSig := 0, 0, false, false;
    for i := 0 to |names|
      invariant LastIndex(names[..i], "mag") == if hasMag then magIndex else -1
      invariant LastIndex(names[..i], "signum") == if hasSig then sigIndex else -1
    {
      assert names[..i + 1][..i] == names[..i];
      if names[i] == "mag" {
        magIndex, hasMag := i, true;
      } else if names[i] == "signum" {
        sigIndex, hasSig := i, true;
      }
    }
    assert names[..|names|] == names;
  }

  /** The loop that masks the words; nothing if some item is no integer. */
  method ReadWords(items: seq<Value>) returns (words: Option<seq<uint64>>)
    ensures words == if AllIntegers(items) then Some(MaskedWords(items)) else None
  {
    var read: seq<uint64> := [];
    for i := 0 to |items|
      invariant |read| == i
      invariant forall j :: 0 <= j < i ==> items[j].Integer? && read[j] == Masked(items[j].i)
    {
      if !items[i].Integer? {
        return None;
      }
      read := read + [Masked(items[i].i)];
    }
    assert read == MaskedWords(items);
    return Some(read);
  }

  method ConvertBigInteger(instance: ClassInstance) returns (event: Event)
    ensures event == BigIntegerJson(instance)
    ensures Written(instance, event)
  {
    JsonIsWritten(instance);
    var magIndex, sigIndex, hasMag, hasSig := FindFields(instance.fieldNames);
    if !hasMag || !hasSig {
      return WriteNull;
    }
    if magIndex >= |instance.data| || sigIndex >= |instance.data| {
      return WriteNull;
    }
    var sig := instance.data[sigIndex];
    if !sig.Integer? {
      return WriteNull;
    }
    if sig.i == 0 {
      return WriteInt(0);
    }
    var mag := instance.data[magIndex];
    if !mag.TypedList? {
      return WriteNull;
    }
    var read := ReadWords(mag.elements);
    if read.None? {
      return WriteNull;
    }
    var words := read.value;
    var values := new uint64[|words|](i requires 0 <= i < |words| => words[i]);
    assert values[..] == words;
    event := PrintWords(sig.i < 0, values);
  }

  /** One word, two words, and a sign. */
  method ConvertExamples() returns (five: Event, minusFive: Event, twoWords: Event, unsigned: Event)
    ensures five == WriteInt(5) && minusFive == WriteInt(-5)
    ensures twoWords == WriteInt(0x1_0000_0002) && unsigned == WriteInt(0xFFFF_FFFF)
  {
    five := ConvertExample(1, [Integer(5)]);
    minusFive := ConvertExample(-1, [Integer(5)]);
    twoWords := ConvertExample(1, [Integer(1), Integer(2)]);
    unsigned := ConvertExample(1, [Integer(-1)]);
    assert Pow(0x1_0000_0000, 0) == 1 && Pow(0x1_0000_0000, 1) == 0x1_0000_0000;
    assert [Integer(5)][1..] == [] && [Integer(-1)][1..] == [];
    assert [Integer(1), Integer(2)][1..] == [Integer(2)] && [Integer(2)][1..] == [];
  }

  method ConvertExample(sign: int32, items: seq<Value>) returns (event: Event)
    requires sign != 0 && AllIntegers(items) && items != []
    ensures WritesNumber(event, if sign > 0 then Magnitude(items) else 0 - Magnitude(items))
  {
    var instance := ClassInstance(["signum", "mag"], [Integer(sign), TypedList(items)]);
    event := ConvertBigInteger(instance);
    assert LastNamed(instance.fieldNames, "mag", 1) && LastNamed(instance.fieldNames, "signum", 0);
  }
}
