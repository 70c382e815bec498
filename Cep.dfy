/**
 * Normalisation and validation of a CEP (Brazilian postal code) before it is
 * looked up: the first half of `getAddressFromCEP`.
 *
 * The format rule the service checks the canonical form against is a schema
 * that lives elsewhere; here it is the parameter `schema`. `IsCepFormat` is the
 * rule "five digits, a hyphen, three digits", used to state what the
 * validation accepts once the rule is fixed.
 */
module Cep {
  import opened Wrappers
  import opened Errors

  predicate IsDigit(c: char) { '0' <= c <= '9' }

  predicate AllDigits(s: string) { forall i :: 0 <= i < |s| ==> IsDigit(s[i]) }

  /** The canonical display form of a CEP: `ddddd-ddd`. */
  predicate IsCepFormat(s: string)
  {
    |s| == 9 && AllDigits(s[..5]) && s[5] == '-' && AllDigits(s[6..])
  }

  /** An 8-character CEP with a hyphen inserted after its fifth character. */
  function InsertHyphen(s: string): (r: string)
    requires |s| == 8
    ensures |r| == 9 && r[5] == '-' && r[..5] == s[..5] && r[6..] == s[5..]
  {
    s[..5] + "-" + s[5..]
  }

  /** The string the format rule is applied to: 8 characters get a hyphen, 9 are kept. */
  function Canonical(s: string): (r: string)
    requires 8 <= |s| <= 9
    ensures |r| == 9
    ensures |s| == 8 ==> r[..5] == s[..5] && r[5] == '-' && r[6..] == s[5..]
    ensures |s| == 9 ==> r == s
  {
    if |s| == 8 then InsertHyphen(s) else s
  }

  /** The position of the first hyphen of `s` (see `HyphenIndexIsFirst`). */
  function HyphenIndex(s: string): (i: nat)
    requires '-' in s
    ensures i < |s| && s[i] == '-'
  {
    if s[0] == '-' then 0 else HyphenIndex(s[1..]) + 1
  }

  /** No hyphen comes before the one `HyphenIndex` finds. */
  lemma {:induction false} HyphenIndexIsFirst(s: string)
    requires '-' in s
    ensures '-' !in s[..HyphenIndex(s)]
  {
    if s[0] != '-' {
      var j := HyphenIndex(s[1..]);
      HyphenIndexIsFirst(s[1..]);
      assert s[..j + 1] == [s[0]] + s[1..][..j];
    }
  }

  /**
   * `s.replace('-', '')` with a string pattern: only the FIRST hyphen is
   * removed, later ones stay (see `RemoveFirstHyphenSplits`).
   */
  function RemoveFirstHyphen(s: string): (r: string)
    ensures '-' !in s ==> r == s
  {
    if s == [] then s
    else if s[0] == '-' then s[1..]
    else
      assert s == [s[0]] + s[1..];
      [s[0]] + RemoveFirstHyphen(s[1..])
  }

  /** With a hyphen present, the result is the input cut around its first hyphen. */
  lemma {:induction false} RemoveFirstHyphenSplits(s: string)
    requires '-' in s
    ensures RemoveFirstHyphen(s) == s[..HyphenIndex(s)] + s[HyphenIndex(s) + 1..]
  {
    if s[0] != '-' {
      var t := s[1..];
      assert s == [s[0]] + t;
      assert '-' in t;
      RemoveFirstHyphenSplits(t);
      var j := HyphenIndex(t);
      assert HyphenIndex(s) == j + 1;
      calc {
        RemoveFirstHyphen(s);
        [s[0]] + RemoveFirstHyphen(t);
        [s[0]] + (t[..j] + t[j + 1..]);
        ([s[0]] + t[..j]) + t[j + 1..];
        { assert s[..j + 1] == [s[0]] + t[..j]; assert s[j + 2..] == t[j + 1..]; }
        s[..j + 1] + s[j + 2..];
      }
    }
  }

  /** The number of characters of `s` equal to `c`. */
  function Occurrences(s: string, c: char): nat
  {
    if s == [] then 0 else (if s[0] == c then 1 else 0) + Occurrences(s[1..], c)
  }

  lemma {:induction false} OccurrencesSplit(s: string, t: string, c: char)
    ensures Occurrences(s + t, c) == Occurrences(s, c) + Occurrences(t, c)
  {
    if s != [] {
      assert (s + t)[1..] == s[1..] + t;
      OccurrencesSplit(s[1..], t, c);
    } else {
      assert s + t == t;
    }
  }

  lemma {:induction false} OccurrencesZero(s: string, c: char)
    ensures c !in s <==> Occurrences(s, c) == 0
  {
    if s != [] {
      OccurrencesZero(s[1..], c);
      assert s == [s[0]] + s[1..];
    }
  }

  /** Removing the first hyphen shortens the string by one exactly when it has a hyphen,
      and then lowers the hyphen count by exactly one. */
  lemma {:induction false} RemoveFirstHyphenCounts(s: string)
    ensures |RemoveFirstHyphen(s)| == if '-' in s then |s| - 1 else |s|
    ensures Occurrences(RemoveFirstHyphen(s), '-') == if '-' in s then Occurrences(s, '-') - 1 else Occurrences(s, '-')
  {
    if '-' in s {
      RemoveFirstHyphenSplits(s);
      var i := HyphenIndex(s);
      assert s == s[..i] + ([s[i]] + s[i + 1..]);
      OccurrencesSplit(s[..i], [s[i]] + s[i + 1..], '-');
      OccurrencesSplit([s[i]], s[i + 1..], '-');
      OccurrencesSplit(s[..i], s[i + 1..], '-');
      assert [s[i]][1..] == [];
    }
  }

  /**
   * The lookup key `getAddressFromCEP` computes, or the NotFound it throws
   * before any lookup: an absent CEP or one whose length is outside [8, 9] is
   * rejected; otherwise the canonical form is checked with `schema`, the key is
   * the ORIGINAL input with its first hyphen removed, and the CEP is rejected
   * when the key is not 8 characters long or the format check failed.
   */
  function LookupKey(cep: Option<string>, schema: string -> bool): (r: Result<string, Error>)
    ensures r.Err? ==> r.error == NotFound
    ensures cep.None? || |cep.value| < 8 || |cep.value| > 9 ==> r.Err?
    ensures r.Ok? <==>
              && cep.Some? && 8 <= |cep.value| <= 9
              && schema(Canonical(cep.value))
              && |RemoveFirstHyphen(cep.value)| == 8
    ensures r.Ok? ==> r.value == RemoveFirstHyphen(cep.value)
  {
    if cep.None? || |cep.value| < 8 || |cep.value| > 9 then Err(NotFound)
    else
      var formatOk := schema(Canonical(cep.value));
      var key := RemoveFirstHyphen(cep.value);
      if |key| != 8 || !formatOk then Err(NotFound) else Ok(key)
  }

  lemma AllDigitsNoHyphen(s: string)
    requires AllDigits(s)
    ensures '-' !in s
  {
  }

  lemma AllDigitsConcat(s: string, t: string)
    ensures AllDigits(s + t) <==> AllDigits(s) && AllDigits(t)
  {
    if AllDigits(s) && AllDigits(t) {
      forall i | 0 <= i < |s + t| ensures IsDigit((s + t)[i]) {
        if i >= |s| { assert (s + t)[i] == t[i - |s|]; }
      }
    }
    if AllDigits(s + t) {
      forall i | 0 <= i < |s| ensures IsDigit(s[i]) {
        assert (s + t)[i] == s[i];
      }
      forall i | 0 <= i < |t| ensures IsDigit(t[i]) {
        assert (s + t)[|s| + i] == t[i];
      }
    }
  }

  /** With the ddddd-ddd rule, an 8-character CEP passes exactly when it is 8 digits,
      and then its key is the input itself. */
  lemma EightCharacterCep(c: string)
    requires |c| == 8
    ensures LookupKey(Some(c), IsCepFormat).Ok? <==> AllDigits(c)
    ensures AllDigits(c) ==> LookupKey(Some(c), IsCepFormat) == Ok(c)
  {
  }

  /** With the ddddd-ddd rule, a 9-character CEP passes exactly when it has that form,
      and then its key is the input without the hyphen. */
  lemma NineCharacterCep(c: string)
    requires |c| == 9
    ensures LookupKey(Some(c), IsCepFormat).Ok? <==> IsCepFormat(c)
    ensures IsCepFormat(c) ==> LookupKey(Some(c), IsCepFormat) == Ok(c[..5] + c[6..])
  {
    if IsCepFormat(c) {
      RemoveFirstHyphenSplits(c);
      HyphenIndexIsFirst(c);
      AllDigitsNoHyphen(c[..5]);
    }
  }

  /**
   * With the ddddd-ddd rule the validation accepts exactly the CEPs written
   * `dddddddd` or `ddddd-ddd`, and every key it hands to the lookup is 8 digits.
   */
  lemma AcceptedCeps(cep: Option<string>)
    ensures LookupKey(cep, IsCepFormat).Ok? <==>
              cep.Some? && ((|cep.value| == 8 && AllDigits(cep.value)) || IsCepFormat(cep.value))
    ensures LookupKey(cep, IsCepFormat).Ok? ==>
              var key := LookupKey(cep, IsCepFormat).value; |key| == 8 && AllDigits(key)
  {
    if cep.Some? && |cep.value| == 8 {
      EightCharacterCep(cep.value);
    } else if cep.Some? && |cep.value| == 9 {
      var c := cep.value;
      NineCharacterCep(c);
      if IsCepFormat(c) {
        AllDigitsConcat(c[..5], c[6..]);
      }
    }
  }

  /** Whether the hyphen is written or not, the same 8 digits reach the lookup. */
  lemma {:induction false} HyphenIsOptional(d: string)
    requires |d| == 8 && AllDigits(d)
    ensures LookupKey(Some(d), IsCepFormat) == Ok(d)
    ensures LookupKey(Some(InsertHyphen(d)), IsCepFormat) == Ok(d)
  {
    EightCharacterCep(d);
    var h := InsertHyphen(d);
    assert d == d[..5] + d[5..];
    AllDigitsConcat(d[..5], d[5..]);
    NineCharacterCep(h);
    assert h[..5] + h[6..] == d;
  }

  /** The two spellings of the same CEP give the key "01310930". */
  lemma ExampleKeys(d: string, h: string)
    requires d == "01310930" && h == "01310-930"
    ensures LookupKey(Some(d), IsCepFormat) == Ok(d)
    ensures LookupKey(Some(h), IsCepFormat) == Ok(d)
  {
    assert AllDigits(d) by {
      forall i | 0 <= i < |d| ensures IsDigit(d[i]) { }
    }
    HyphenIsOptional(d);
    assert InsertHyphen(d) == h by {
      forall i | 0 <= i < 9 ensures InsertHyphen(d)[i] == h[i] { }
    }
  }

  /**
   * Only the first hyphen is removed: a rule that let two hyphens through would
   * send a key that still holds one.
   */
  lemma {:induction false} KeyKeepsLaterHyphens(c: string, schema: string -> bool)
    requires |c| == 9 && Occurrences(c, '-') == 2 && schema(c)
    ensures LookupKey(Some(c), schema).Ok?
    ensures '-' in LookupKey(Some(c), schema).value
  {
    OccurrencesZero(c, '-');
    RemoveFirstHyphenCounts(c);
    OccurrencesZero(RemoveFirstHyphen(c), '-');
  }
}
