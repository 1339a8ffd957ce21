/**
  * The inspect-code allocator. A checklist's inspect code is
  * `plant ‖ zone ‖ yyMMdd ‖ running number`, the running number printed
  * with at least four digits. The next number is one more than the number
  * after the prefix in the greatest stored code with that prefix, in the
  * database's string order. The store is a snapshot of the inspect codes
  * of all stored checklists; allocation only reads it.
  */
module InspectCode {
  import opened Wrappers
  import opened Text
  import opened Models

  /** What a `DateTime` guarantees of its date part. */
  predicate ValidDate(d: Date) {
    1 <= d.year <= 9999 && 1 <= d.month <= 12 && 1 <= d.day <= 31
  }

  /** `today.ToString("yyMMdd")`. */
  function YyMMdd(d: Date): (r: string)
    requires ValidDate(d)
    ensures |r| == 6 && AllDigits(r)
  {
    FormatDLength(d.year % 100, 2);
    FormatDLength(d.month, 2);
    FormatDLength(d.day, 2);
    FormatD(d.year % 100, 2) + FormatD(d.month, 2) + FormatD(d.day, 2)
  }

  /** The code prefix of a plant, a machine zone and a day. */
  function InspectPrefix(plant: string, zone: string, today: Date): (r: string)
    requires ValidDate(today)
    ensures StartsWith(r, plant) && |r| == |plant| + |zone| + 6
    ensures r[|plant| + |zone|..] == YyMMdd(today)
  {
    plant + zone + YyMMdd(today)
  }

  /**
    * `SELECT TOP 1 InspectCode ... WHERE InspectCode LIKE prefix + '%'
    * ORDER BY InspectCode DESC`: the greatest stored code with the prefix.
    */
  function GreatestWithPrefix(codes: seq<string>, prefix: string): (r: Option<string>)
    ensures r.Some? ==> r.value in codes && StartsWith(r.value, prefix)
    decreases |codes|
  {
    if codes == [] then None
    else
      var rest := GreatestWithPrefix(codes[..|codes| - 1], prefix);
      var c := codes[|codes| - 1];
      if !StartsWith(c, prefix) then rest
      else if rest.None? || LexLess(rest.value, c) then Some(c)
      else rest
  }

  /**
    * The running number after the code `last`: 1 when there is no such code,
    * when it is shorter than the prefix plus four characters, or when the
    * text after the prefix is not an `int`; otherwise that number plus one,
    * with C#'s unchecked 32-bit addition.
    */
  function NextNumber(last: Option<string>, prefix: string): (r: int)
    ensures IsInt32(r)
  {
    if last.Some? && last.value != "" && |last.value| >= |prefix| + 4 then
      match ParseInt32(last.value[|prefix|..])
      case Some(current) => Wrap32(current + 1)
      case None => 1
    else 1
  }

  /** `GenerateInspectCodeAsync(plant, zone)` on the day `today` over the store `codes`. */
  function GenerateInspectCode(codes: seq<string>, plant: string, zone: string, today: Date): (r: string)
    requires ValidDate(today)
    ensures StartsWith(r, InspectPrefix(plant, zone, today))
    ensures |r| >= |InspectPrefix(plant, zone, today)| + 4
  {
    var prefix := InspectPrefix(plant, zone, today);
    var n := NextNumber(GreatestWithPrefix(codes, prefix), prefix);
    assert (prefix + FormatD(n, 4))[..|prefix|] == prefix;
    prefix + FormatD(n, 4)
  }

  /** `SELECT COUNT(*) ... WHERE InspectCode = code`. */
  function CountCode(codes: seq<string>, code: string): (r: nat)
    ensures r > 0 <==> code in codes
    ensures r <= |codes|
    decreases |codes|
  {
    if codes == [] then 0
    else CountCode(codes[..|codes| - 1], code) + (if codes[|codes| - 1] == code then 1 else 0)
  }

  /** `IsInspectCodeExistsAsync(code)`. */
  function IsInspectCodeExists(codes: seq<string>, code: string): (r: bool)
    ensures r <==> code in codes
  {
    CountCode(codes, code) > 0
  }

  const ExhaustedMessage: string := "ไม่สามารถสร้าง InspectCode ที่ไม่ซ้ำได้ กรุณาลองใหม่อีกครั้ง"

  /**
    * `GenerateUniqueInspectCodeAsync(plant, zone, maxRetries)`: up to
    * `maxRetries` attempts, each generating a code and returning it when the
    * store does not hold it; throws once every attempt collided. The store
    * is a value here, so it does not change between attempts and the pause
    * between them has no effect.
    */
  method GenerateUniqueInspectCode(codes: seq<string>, plant: string, zone: string, today: Date, maxRetries: int)
    returns (r: Result<string, string>)
    requires ValidDate(today)
    ensures r.Ok? <==> maxRetries > 0 && GenerateInspectCode(codes, plant, zone, today) !in codes
    ensures r.Ok? ==> r.value == GenerateInspectCode(codes, plant, zone, today) && r.value !in codes
    ensures r.Err? ==> r.error == ExhaustedMessage
  {
    var i := 0;
    while i < maxRetries
      invariant 0 <= i
      invariant i > 0 ==> GenerateInspectCode(codes, plant, zone, today) in codes
    {
      var inspectCode := GenerateInspectCode(codes, plant, zone, today);
      var found := IsInspectCodeExists(codes, inspectCode);
      if !found {
        return Ok(inspectCode);
      }
      i := i + 1;
    }
    return Err(ExhaustedMessage);
  }

  // ---------------------------------------------------------------------
  // Properties of the allocator
  // ---------------------------------------------------------------------

  /** The greatest-code lookup finds nothing exactly when no code has the prefix, and otherwise the maximum. */
  lemma {:induction false} GreatestWithPrefixIsGreatest(codes: seq<string>, prefix: string)
    ensures GreatestWithPrefix(codes, prefix).None? <==> forall c :: c in codes ==> !StartsWith(c, prefix)
    ensures GreatestWithPrefix(codes, prefix).Some? ==>
              forall c :: c in codes && StartsWith(c, prefix) ==> LexLessEq(c, GreatestWithPrefix(codes, prefix).value)
    decreases |codes|
  {
    if codes != [] {
      var init := codes[..|codes| - 1];
      var c := codes[|codes| - 1];
      assert codes == init + [c];
      GreatestWithPrefixIsGreatest(init, prefix);
      var rest := GreatestWithPrefix(init, prefix);
      if StartsWith(c, prefix) && rest.Some? {
        LexTotal(rest.value, c);
        if LexLess(rest.value, c) {
          forall d | d in init && StartsWith(d, prefix)
            ensures LexLessEq(d, c)
          {
            if d != rest.value {
              LexTransitive(d, rest.value, c);
            }
          }
        }
      }
    }
  }

  /** The greatest matching code is determined by the set of matching codes. */
  lemma GreatestIsUnique(codes: seq<string>, prefix: string, g: string)
    requires g in codes && StartsWith(g, prefix)
    requires forall c :: c in codes && StartsWith(c, prefix) ==> LexLessEq(c, g)
    ensures GreatestWithPrefix(codes, prefix) == Some(g)
  {
    GreatestWithPrefixIsGreatest(codes, prefix);
    var h := GreatestWithPrefix(codes, prefix).value;
    assert LexLessEq(h, g) && LexLessEq(g, h);
    LexAsymmetric(g, h);
  }

  /** `g` is the greatest stored code with the prefix. */
  predicate IsGreatestWithPrefix(codes: seq<string>, prefix: string, g: string) {
    g in codes && StartsWith(g, prefix) && forall c :: c in codes && StartsWith(c, prefix) ==> LexLessEq(c, g)
  }

  /**
    * Numbering restarts at 0001 when the greatest code of the day is shorter
    * than the prefix plus four characters, or its tail is not an `int`.
    */
  lemma NumberingRestarts(codes: seq<string>, plant: string, zone: string, today: Date, g: string)
    requires ValidDate(today)
    requires IsGreatestWithPrefix(codes, InspectPrefix(plant, zone, today), g)
    requires |g| < |InspectPrefix(plant, zone, today)| + 4
             || ParseInt32(g[|InspectPrefix(plant, zone, today)|..]).None?
    ensures GenerateInspectCode(codes, plant, zone, today) == InspectPrefix(plant, zone, today) + "0001"
  {
    GreatestIsUnique(codes, InspectPrefix(plant, zone, today), g);
    FormatDSamples();
  }

  /** Otherwise the tail of the greatest code, plus one in 32-bit arithmetic, is the next number. */
  lemma NumberingContinues(codes: seq<string>, plant: string, zone: string, today: Date, g: string, k: int)
    requires ValidDate(today)
    requires IsGreatestWithPrefix(codes, InspectPrefix(plant, zone, today), g)
    requires |g| >= |InspectPrefix(plant, zone, today)| + 4
    requires ParseInt32(g[|InspectPrefix(plant, zone, today)|..]) == Some(k)
    ensures GenerateInspectCode(codes, plant, zone, today) == InspectPrefix(plant, zone, today) + FormatD(Wrap32(k + 1), 4)
  {
    GreatestIsUnique(codes, InspectPrefix(plant, zone, today), g);
  }

  /**
    * After the tail `int.MaxValue` the unchecked increment wraps to
    * `int.MinValue`, and the next code carries a minus sign.
    */
  lemma NumberingWrapsAround(codes: seq<string>, plant: string, zone: string, today: Date, top: int)
    requires ValidDate(today) && top == Int32Max
    requires IsGreatestWithPrefix(codes, InspectPrefix(plant, zone, today), InspectPrefix(plant, zone, today) + FormatD(top, 4))
    ensures GenerateInspectCode(codes, plant, zone, today) == InspectPrefix(plant, zone, today) + FormatD(Int32Min, 4)
    ensures GenerateInspectCode(codes, plant, zone, today)[|InspectPrefix(plant, zone, today)|] == '-'
  {
    var prefix := InspectPrefix(plant, zone, today);
    var g := prefix + FormatD(top, 4);
    assert g[|prefix|..] == FormatD(top, 4);
    FormatDRoundTrip(top, 4);
    NumberingContinues(codes, plant, zone, today, g, top);
    WrapPastMax();
    SignAfterPrefix(prefix, Int32Min);
  }

  /** A negative number printed after a prefix starts with a minus sign. */
  lemma SignAfterPrefix(prefix: string, n: int)
    requires n < 0
    ensures (prefix + FormatD(n, 4))[|prefix|] == '-'
  {
  }

  /** With no code of the day and place in the store, numbering starts at 0001. */
  lemma FirstCodeOfTheDay(codes: seq<string>, plant: string, zone: string, today: Date)
    requires ValidDate(today)
    requires forall c :: c in codes ==> !StartsWith(c, InspectPrefix(plant, zone, today))
    ensures GenerateInspectCode(codes, plant, zone, today) == InspectPrefix(plant, zone, today) + "0001"
  {
    GreatestWithPrefixIsGreatest(codes, InspectPrefix(plant, zone, today));
    FormatDSamples();
  }

  /** The default plant, zone A, on 22 December 2025, with an empty store. */
  lemma FirstCodeExample()
    ensures GenerateInspectCode([], "KB01", "A", Date(2025, 12, 22)) == "KB01A2512220001"
  {
    var d := Date(2025, 12, 22);
    ExampleDateText();
    assert InspectPrefix("KB01", "A", d) == "KB01A251222";
    FirstCodeOfTheDay([], "KB01", "A", d);
  }

  lemma ExampleDateText()
    ensures YyMMdd(Date(2025, 12, 22)) == "251222"
  {
    assert DigitsOf(25) == DigitsOf(2) + "5";
    assert DigitsOf(12) == DigitsOf(1) + "2";
    assert DigitsOf(22) == DigitsOf(2) + "2";
  }

  /** A code of the day that is the four-digit `k` is followed by the four-digit `k + 1`. */
  lemma SuccessorCode(codes: seq<string>, plant: string, zone: string, today: Date, k: int)
    requires ValidDate(today) && 0 <= k < 9999
    requires InspectPrefix(plant, zone, today) + FormatD(k, 4) in codes
    requires forall c :: c in codes && StartsWith(c, InspectPrefix(plant, zone, today)) ==>
               LexLessEq(c, InspectPrefix(plant, zone, today) + FormatD(k, 4))
    ensures GenerateInspectCode(codes, plant, zone, today) == InspectPrefix(plant, zone, today) + FormatD(k + 1, 4)
  {
    var prefix := InspectPrefix(plant, zone, today);
    var g := prefix + FormatD(k, 4);
    assert g[..|prefix|] == prefix;
    assert IsGreatestWithPrefix(codes, prefix, g);
    assert g[|prefix|..] == FormatD(k, 4);
    FormatDRoundTrip(k, 4);
    NumberingContinues(codes, plant, zone, today, g, k);
    assert Wrap32(k + 1) == k + 1;
  }

  /** The codes `prefix ‖ D4(1)` .. `prefix ‖ D4(n)`. */
  predicate IssuedUpTo(codes: seq<string>, prefix: string, n: int) {
    (forall i :: 1 <= i <= n ==> prefix + FormatD(i, 4) in codes)
    && (forall c :: c in codes && StartsWith(c, prefix) ==> exists i :: 1 <= i <= n && c == prefix + FormatD(i, 4))
  }

  /** Codes issued without gaps keep being issued without gaps, up to 9999. */
  lemma SerialAllocation(codes: seq<string>, plant: string, zone: string, today: Date, n: int)
    requires ValidDate(today) && 0 <= n < 9999
    requires IssuedUpTo(codes, InspectPrefix(plant, zone, today), n)
    ensures GenerateInspectCode(codes, plant, zone, today) == InspectPrefix(plant, zone, today) + FormatD(n + 1, 4)
    ensures IssuedUpTo(codes + [GenerateInspectCode(codes, plant, zone, today)], InspectPrefix(plant, zone, today), n + 1)
  {
    var prefix := InspectPrefix(plant, zone, today);
    if n == 0 {
      FirstCodeOfTheDay(codes, plant, zone, today);
      FormatDSamples();
    } else {
      forall c | c in codes && StartsWith(c, prefix)
        ensures LexLessEq(c, prefix + FormatD(n, 4))
      {
        var i :| 1 <= i <= n && c == prefix + FormatD(i, 4);
        if i < n {
          FormatD4Monotone(i, n);
          LexCommonPrefix(prefix, FormatD(i, 4), FormatD(n, 4));
        }
      }
      SuccessorCode(codes, plant, zone, today, n);
    }
    IssuedUpToExtend(codes, prefix, n);
  }

  /** Issuing the code after `n` extends a gap-free run to `n + 1`. */
  lemma IssuedUpToExtend(codes: seq<string>, prefix: string, n: nat)
    requires IssuedUpTo(codes, prefix, n)
    ensures IssuedUpTo(codes + [prefix + FormatD(n + 1, 4)], prefix, n + 1)
  {
    var next := prefix + FormatD(n + 1, 4);
    var after := codes + [next];
    forall i | 1 <= i <= n + 1
      ensures prefix + FormatD(i, 4) in after
    {
      if i <= n {
        assert prefix + FormatD(i, 4) in codes;
      }
    }
    forall c | c in after && StartsWith(c, prefix)
      ensures exists i :: 1 <= i <= n + 1 && c == prefix + FormatD(i, 4)
    {
      assert c in codes || c in [next];
      if c in codes {
        var i :| 1 <= i <= n && c == prefix + FormatD(i, 4);
        assert 1 <= i <= n + 1;
      } else {
        assert c == prefix + FormatD(n + 1, 4);
      }
    }
  }

  /** When 0001 .. 10000 have been issued, the greatest code of the day in string order is 9999. */
  lemma FullDayTop(codes: seq<string>, prefix: string)
    requires IssuedUpTo(codes, prefix, 10000)
    ensures IsGreatestWithPrefix(codes, prefix, prefix + FormatD(9999, 4))
  {
    var top := prefix + FormatD(9999, 4);
    forall c | c in codes && StartsWith(c, prefix)
      ensures LexLessEq(c, top)
    {
      var i :| 1 <= i <= 10000 && c == prefix + FormatD(i, 4);
      BelowTop(prefix, i);
    }
    assert top[..|prefix|] == prefix;
  }

  /** Every tail 1 .. 10000 sorts at or below the tail 9999. */
  lemma BelowTop(prefix: string, i: int)
    requires 1 <= i <= 10000
    ensures LexLessEq(prefix + FormatD(i, 4), prefix + FormatD(9999, 4))
  {
    FormatDSamples();
    if i < 9999 {
      FormatD4Monotone(i, 9999);
      LexCommonPrefix(prefix, FormatD(i, 4), FormatD(9999, 4));
    } else if i == 10000 {
      assert LexLess("10000", "9999");
      LexCommonPrefix(prefix, "10000", "9999");
    }
  }

  /**
    * Four digits are a minimum width only: once `prefix ‖ 10000` has been
    * issued after `prefix ‖ 9999`, the greatest code in string order is still
    * `prefix ‖ 9999`, so the allocator proposes `prefix ‖ 10000` again and
    * every attempt collides.
    */
  lemma StuckAfter9999(codes: seq<string>, plant: string, zone: string, today: Date)
    requires ValidDate(today)
    requires IssuedUpTo(codes, InspectPrefix(plant, zone, today), 10000)
    ensures GenerateInspectCode(codes, plant, zone, today) == InspectPrefix(plant, zone, today) + "10000"
    ensures GenerateInspectCode(codes, plant, zone, today) in codes
  {
    var prefix := InspectPrefix(plant, zone, today);
    var top := prefix + FormatD(9999, 4);
    FullDayTop(codes, prefix);
    FormatDSamples();
    assert top[|prefix|..] == FormatD(9999, 4);
    FormatDRoundTrip(9999, 4);
    NumberingContinues(codes, plant, zone, today, top, 9999);
    assert Wrap32(9999 + 1) == 10000;
    assert prefix + FormatD(10000, 4) in codes;
  }
}
