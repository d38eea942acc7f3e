/** The release shapes of the batch fixture, and the output check of a batch. */
module BatchShapes {
  import opened Wrappers
  import opened Decimal

  // ----- amounts -----

  /** `^[1-9][0-9]*$` */
  predicate PositiveText(s: string) {
    s != "" && s[0] != '0' && forall i :: 0 <= i < |s| ==> IsDigit(s[i])
  }

  predicate PositiveTexts(texts: seq<string>) { forall i :: 0 <= i < |texts| ==> PositiveText(texts[i]) }

  lemma {:induction false} DigitsAreNat(s: string)
    requires forall i :: 0 <= i < |s| ==> IsDigit(s[i])
    ensures 0 <= ParseDigits(s)
    ensures s != "" && s[0] != '0' ==> 0 < ParseDigits(s)
  {
    if s != "" {
      DigitsAreNat(s[..|s| - 1]);
    }
  }

  /** Exactly the numerals of the positive integers. */
  lemma PositiveTextMeans(s: string)
    ensures PositiveText(s) <==> 0 < ParseDigits(s) && s == Numeral(ParseDigits(s))
  {
    if PositiveText(s) { NumeralOfParse(s); }
  }

  /** `reduce((sum, amount) => sum + BigInt(amount), 0n)` */
  function Total(texts: seq<string>): int {
    if texts == [] then 0 else Total(texts[..|texts| - 1]) + ParseDigits(texts[|texts| - 1])
  }

  lemma {:induction false} TotalConcat(a: seq<string>, b: seq<string>)
    ensures Total(a + b) == Total(a) + Total(b)
  {
    if b == [] {
      assert a + b == a;
    } else {
      assert (a + b)[..|a| + |b| - 1] == a + b[..|b| - 1];
      TotalConcat(a, b[..|b| - 1]);
    }
  }

  // ----- roles -----

  const PAYMENT := "payment"
  const CHANGE := "change"
  const PADDING := "padding"

  lemma RolesDiffer()
    ensures PAYMENT != CHANGE && PAYMENT != PADDING && CHANGE != PADDING
  {
    assert PAYMENT[0] != CHANGE[0] && PAYMENT[1] == PADDING[1] && PAYMENT[2] != PADDING[2] && CHANGE[0] != PADDING[0];
  }

  /** Payments first, then at most one change, then padding. */
  predicate InLanguage(roles: seq<string>, payments: nat) {
    payments <= |roles|
    && forall i :: 0 <= i < |roles| ==>
         if i < payments then roles[i] == PAYMENT
         else if i == payments then roles[i] == CHANGE || roles[i] == PADDING
         else roles[i] == PADDING
  }

  function Count(roles: seq<string>, role: string): nat {
    if roles == [] then 0 else Count(roles[..|roles| - 1], role) + if roles[|roles| - 1] == role then 1 else 0
  }

  /** The role list the loader builds from the counts it finds. */
  function CanonicalRoles(roles: seq<string>, payments: nat): seq<string> {
    seq(payments, _ => PAYMENT) + (if CHANGE in roles then [CHANGE] else []) + seq(Count(roles, PADDING), _ => PADDING)
  }

  predicate HasChange(roles: seq<string>, payments: nat) { payments < |roles| && roles[payments] == CHANGE }

  lemma {:induction false} CountInLanguage(roles: seq<string>, payments: nat)
    requires InLanguage(roles, payments)
    ensures var c := if HasChange(roles, payments) then 1 else 0;
            Count(roles, PAYMENT) == payments && Count(roles, CHANGE) == c && Count(roles, PADDING) == |roles| - payments - c
  {
    RolesDiffer();
    if roles != [] {
      var init := roles[..|roles| - 1];
      CountInLanguage(init, if payments < |roles| then payments else |init|);
    }
  }

  lemma ChangeIsThere(roles: seq<string>, payments: nat)
    requires InLanguage(roles, payments)
    ensures CHANGE in roles <==> HasChange(roles, payments)
  {
    RolesDiffer();
  }

  /** The comparison with the rebuilt list accepts exactly the role language. */
  lemma CanonicalIffLanguage(roles: seq<string>, payments: nat)
    ensures CanonicalRoles(roles, payments) == roles <==> InLanguage(roles, payments)
  {
    RolesDiffer();
    if CanonicalRoles(roles, payments) == roles {
      assert forall i :: 0 <= i < |roles| ==> roles[i] == CanonicalRoles(roles, payments)[i];
    }
    if InLanguage(roles, payments) {
      CountInLanguage(roles, payments);
      ChangeIsThere(roles, payments);
    }
  }

  // ----- one case of the fixture -----

  /**
   * A fixture entry; texts are what `String(value ?? "").trim()` gives, except that `selfView` is compared as it
   * is, and a missing list is empty.
   */
  datatype Case = Case(id: string, inputAmounts: seq<string>, paymentAmounts: seq<string>, outputRoles: seq<string>,
                       disclosureModes: seq<string>, outputMode: string, selfView: string)

  datatype Shape = Shape(id: string, inputAmounts: seq<string>, paymentAmounts: seq<string>, outputRoles: seq<string>,
                         outputAmounts: seq<string>, disclosureModes: seq<string>, changeCount: nat, paddingCount: nat,
                         outputMode: string, selfViewEnabled: bool)

  const MAX_INPUTS: nat := 16
  const MAX_OUTPUTS: nat := 32

  const MODES: set<string> := {"none", "public", "recipient-encrypted"}

  /**
   * The names every plain object inherits (sections 20.1.3 and B.2.2 of ECMAScript): looking one up in the table
   * of modes finds something that is not null.
   */
  const INHERITED: set<string> := {
    "constructor", "hasOwnProperty", "isPrototypeOf", "propertyIsEnumerable", "toLocaleString", "toString", "valueOf",
    "__proto__", "__defineGetter__", "__defineSetter__", "__lookupGetter__", "__lookupSetter__"}

  /** `fixtureDisclosureModeValues[mode] != null` */
  predicate KnownMode(mode: string) { mode in MODES || mode in INHERITED }

  /** The cases the loader accepts. */
  predicate GoodCase(c: Case) {
    && c.id != ""
    && 1 <= |c.inputAmounts| <= MAX_INPUTS && PositiveTexts(c.inputAmounts)
    && 1 <= |c.paymentAmounts| <= MAX_OUTPUTS && PositiveTexts(c.paymentAmounts)
    && 1 <= |c.outputRoles| <= MAX_OUTPUTS && |c.disclosureModes| == |c.outputRoles|
    && (forall i :: 0 <= i < |c.disclosureModes| ==> KnownMode(c.disclosureModes[i]))
    && InLanguage(c.outputRoles, |c.paymentAmounts|)
    && Total(c.paymentAmounts) <= Total(c.inputAmounts)
    && (HasChange(c.outputRoles, |c.paymentAmounts|) <==> Total(c.paymentAmounts) < Total(c.inputAmounts))
    && (c.outputMode == "compact" || (c.outputMode == "exact32" && |c.outputRoles| == MAX_OUTPUTS))
    && (c.selfView == "enabled" || c.selfView == "disabled")
  }

  /** The disclosure modes of an accepted case are real modes if and only if none of them is an inherited name. */
  lemma OnlyModesUnlessInherited(c: Case)
    requires GoodCase(c)
    ensures (forall i :: 0 <= i < |c.disclosureModes| ==> c.disclosureModes[i] in MODES)
            <==> (forall i :: 0 <= i < |c.disclosureModes| ==> c.disclosureModes[i] !in INHERITED)
  {
    NamesDiffer();
  }

  lemma NamesDiffer()
    ensures MODES !! INHERITED
  {
    var a, b, c := "none", "public", "recipient-encrypted";
    assert |a| == 4 && |b| == 6 && |c| == 19;
    assert forall s :: s in INHERITED ==> |s| != 4 && |s| != 6 && |s| != 19;
  }

  function Repeat<T>(n: nat, x: T): (r: seq<T>)
    ensures |r| == n && forall i :: 0 <= i < n ==> r[i] == x
  {
    seq(n, _ => x)
  }

  /**
   * The accepted cases, spelled out: the roles follow from the amounts and the number of outputs, with a change
   * output exactly if the payments do not use up the inputs.
   */
  lemma GoodCaseMeans(c: Case)
    ensures GoodCase(c) <==>
              var n, change := |c.paymentAmounts|, if Total(c.paymentAmounts) < Total(c.inputAmounts) then ["change"] else [];
              && c.id != "" && 1 <= |c.inputAmounts| <= 16 && 1 <= n <= 32
              && (forall i :: 0 <= i < |c.inputAmounts| ==>
                    0 < ParseDigits(c.inputAmounts[i]) && c.inputAmounts[i] == Numeral(ParseDigits(c.inputAmounts[i])))
              && (forall i :: 0 <= i < n ==>
                    0 < ParseDigits(c.paymentAmounts[i]) && c.paymentAmounts[i] == Numeral(ParseDigits(c.paymentAmounts[i])))
              && Total(c.paymentAmounts) <= Total(c.inputAmounts)
              && n + |change| <= |c.outputRoles| <= 32 && |c.disclosureModes| == |c.outputRoles|
              && c.outputRoles == Repeat(n, "payment") + change + Repeat(|c.outputRoles| - n - |change|, "padding")
              && (forall i :: 0 <= i < |c.disclosureModes| ==>
                    || c.disclosureModes[i] in {"none", "public", "recipient-encrypted"}
                    || c.disclosureModes[i] in {
                         "constructor", "hasOwnProperty", "isPrototypeOf", "propertyIsEnumerable", "toLocaleString",
                         "toString", "valueOf", "__proto__", "__defineGetter__", "__defineSetter__", "__lookupGetter__",
                         "__lookupSetter__"})
              && (c.outputMode == "compact" || (c.outputMode == "exact32" && |c.outputRoles| == 32))
              && c.selfView in {"enabled", "disabled"}
  {
    hide ParseDigits, Numeral, Total;
    RolesDiffer();
    forall s ensures PositiveText(s) <==> 0 < ParseDigits(s) && s == Numeral(ParseDigits(s)) {
      PositiveTextMeans(s);
    }
  }

  /** A case whose disclosure mode is no mode at all is accepted. */
  lemma InheritedModeIsAccepted()
    ensures GoodCase(Case("id", ["7"], ["7"], ["payment"], ["toString"], "compact", "enabled"))
  {
    RolesDiffer();
    assert Total(["7"]) == Total(["7"]);
  }

  /** What each output carries. */
  function AmountAt(c: Case, i: nat): string
    requires GoodCase(c) && i < |c.outputRoles|
  {
    if i < |c.paymentAmounts| then c.paymentAmounts[i]
    else if c.outputRoles[i] == CHANGE then Numeral(Total(c.inputAmounts) - Total(c.paymentAmounts))
    else "0"
  }

  function OutputAmounts(c: Case): (r: seq<string>)
    requires GoodCase(c)
    ensures |r| == |c.outputRoles| && forall i :: 0 <= i < |r| ==> r[i] == AmountAt(c, i)
  {
    seq(|c.outputRoles|, i requires 0 <= i < |c.outputRoles| => AmountAt(c, i))
  }

  function ShapeOf(c: Case): Shape
    requires GoodCase(c)
  {
    var n := |c.paymentAmounts|;
    var change := if HasChange(c.outputRoles, n) then 1 else 0;
    Shape(c.id, c.inputAmounts, c.paymentAmounts, c.outputRoles, OutputAmounts(c), c.disclosureModes,
          change, |c.outputRoles| - n - change, c.outputMode, c.selfView == "enabled")
  }

  /** The shape of an accepted case, spelled out. */
  lemma ShapeMeans(c: Case)
    requires GoodCase(c)
    ensures var s, change := ShapeOf(c), Total(c.inputAmounts) - Total(c.paymentAmounts);
            var texts := if change > 0 then [Numeral(change)] else [];
            && s.id == c.id && s.inputAmounts == c.inputAmounts && s.paymentAmounts == c.paymentAmounts
            && s.outputRoles == c.outputRoles && s.disclosureModes == c.disclosureModes && s.outputMode == c.outputMode
            && s.outputAmounts == c.paymentAmounts + texts + Repeat(|c.outputRoles| - |c.paymentAmounts| - |texts|, "0")
            && s.changeCount == |texts| && s.paddingCount == |c.outputRoles| - |c.paymentAmounts| - |texts|
            && (s.selfViewEnabled <==> c.selfView == "enabled")
  {
    hide ParseDigits, Numeral, Total, PositiveTexts, KnownMode;
    RolesDiffer();
  }

  // ----- the loader -----

  method AmountsAreValid(texts: seq<string>) returns (ok: bool)
    ensures ok <==> PositiveTexts(texts)
  {
    for i := 0 to |texts|
      invariant PositiveTexts(texts[..i])
    {
      if !PositiveText(texts[i]) {
        return false;
      }
    }
    assert texts[..|texts|] == texts;
    return true;
  }

  method Reduce(texts: seq<string>) returns (sum: int)
    ensures sum == Total(texts)
  {
    sum := 0;
    for i := 0 to |texts|
      invariant sum == Total(texts[..i])
    {
      assert texts[..i + 1][..i] == texts[..i];
      sum := sum + ParseDigits(texts[i]);
    }
    assert texts[..|texts|] == texts;
  }

  /** `filter(role => role === wanted).length` */
  method CountRole(roles: seq<string>, wanted: string) returns (n: nat)
    ensures n == Count(roles, wanted)
  {
    n := 0;
    for i := 0 to |roles|
      invariant n == Count(roles[..i], wanted)
    {
      assert roles[..i + 1][..i] == roles[..i];
      if roles[i] == wanted {
        n := n + 1;
      }
    }
    assert roles[..|roles|] == roles;
  }

  /** The loop that hands out the amounts, with its `paymentIndex`. */
  method AssignAmounts(c: Case, changeAmount: int) returns (amounts: seq<string>)
    requires GoodCase(c) && changeAmount == Total(c.inputAmounts) - Total(c.paymentAmounts)
    ensures amounts == OutputAmounts(c)
  {
    hide Total, Numeral, PositiveTexts, KnownMode;
    RolesDiffer();
    amounts := [];
    var paymentIndex := 0;
    for i := 0 to |c.outputRoles|
      invariant |amounts| == i && forall j :: 0 <= j < i ==> amounts[j] == AmountAt(c, j)
      invariant paymentIndex == if i < |c.paymentAmounts| then i else |c.paymentAmounts|
    {
      var role := c.outputRoles[i];
      if role == PAYMENT {
        amounts := amounts + [c.paymentAmounts[paymentIndex]];
        paymentIndex := paymentIndex + 1;
      } else if role == CHANGE {
        amounts := amounts + [SignedNumeral(changeAmount)];
      } else {
        amounts := amounts + ["0"];
      }
    }
  }

  method LoadShape(c: Case, ids: set<string>) returns (r: Result<Shape>)
    ensures r == if GoodCase(c) && c.id !in ids then Ok(ShapeOf(c)) else Err(InvalidFixture)
    ensures r.Ok? ==> (r.value.selfViewEnabled <==> c.selfView == "enabled")
  {
    hide Total, Count, InLanguage, PositiveTexts, KnownMode, CanonicalRoles, HasChange, OutputAmounts;
    if c.id == "" || c.id in ids {
      return Err(InvalidFixture);
    }
    var inputsOk := AmountsAreValid(c.inputAmounts);
    var paymentsOk := AmountsAreValid(c.paymentAmounts);
    if |c.inputAmounts| == 0 || |c.inputAmounts| > MAX_INPUTS || |c.paymentAmounts| == 0 || |c.paymentAmounts| > MAX_OUTPUTS
       || !inputsOk || !paymentsOk {
      return Err(InvalidFixture);
    }
    if |c.outputRoles| == 0 || |c.outputRoles| > MAX_OUTPUTS || |c.disclosureModes| != |c.outputRoles|
       || exists i :: 0 <= i < |c.disclosureModes| && !KnownMode(c.disclosureModes[i]) {
      return Err(InvalidFixture);
    }
    CanonicalIffLanguage(c.outputRoles, |c.paymentAmounts|);
    if CanonicalRoles(c.outputRoles, |c.paymentAmounts|) != c.outputRoles {
      return Err(InvalidFixture);
    }
    var inputTotal := Reduce(c.inputAmounts);
    var paymentTotal := Reduce(c.paymentAmounts);
    var changeAmount := inputTotal - paymentTotal;
    var changeCount := CountRole(c.outputRoles, CHANGE);
    CountInLanguage(c.outputRoles, |c.paymentAmounts|);
    if changeAmount < 0 || (changeCount == 1) != (changeAmount > 0) {
      return Err(InvalidFixture);
    }
    if (c.outputMode != "compact" && c.outputMode != "exact32") || (c.outputMode == "exact32" && |c.outputRoles| != MAX_OUTPUTS)
       || (c.selfView != "enabled" && c.selfView != "disabled") {
      return Err(InvalidFixture);
    }
    var outputAmounts := AssignAmounts(c, changeAmount);
    var paddingCount := CountRole(c.outputRoles, PADDING);
    return Ok(Shape(c.id, c.inputAmounts, c.paymentAmounts, c.outputRoles, outputAmounts, c.disclosureModes,
                    changeCount, paddingCount, c.outputMode, c.selfView == "enabled"));
  }

  datatype Fixture = Fixture(schemaVersion: string, maxInputs: int, maxOutputs: int, cases: seq<Case>)

  predicate GoodFixture(f: Fixture) {
    && f.schemaVersion == "clairveil.batch-transfer.contract.v1" && f.maxInputs == MAX_INPUTS && f.maxOutputs == MAX_OUTPUTS
    && |f.cases| == 5
    && (forall i :: 0 <= i < |f.cases| ==> GoodCase(f.cases[i]))
    && (forall i, j :: 0 <= i < j < |f.cases| ==> f.cases[i].id != f.cases[j].id)
  }

  method LoadReleaseShapes(f: Fixture) returns (r: Result<seq<Shape>>)
    ensures r.Ok? <==> GoodFixture(f)
    ensures r.Ok? <==>
              && f.schemaVersion == "clairveil.batch-transfer.contract.v1" && f.maxInputs == 16 && f.maxOutputs == 32
              && |f.cases| == 5 && (forall i :: 0 <= i < 5 ==> GoodCase(f.cases[i]))
              && forall i, j :: 0 <= i < j < 5 ==> f.cases[i].id != f.cases[j].id
    ensures r.Ok? ==> |r.value| == |f.cases| && forall i :: 0 <= i < |f.cases| ==> r.value[i] == ShapeOf(f.cases[i])
  {
    hide GoodCase, ShapeOf;
    if f.schemaVersion != "clairveil.batch-transfer.contract.v1" || f.maxInputs != MAX_INPUTS || f.maxOutputs != MAX_OUTPUTS || |f.cases| != 5 {
      return Err(InvalidFixture);
    }
    var ids: set<string> := {};
    var shapes: seq<Shape> := [];
    for i := 0 to |f.cases|
      invariant |shapes| == i && forall j :: 0 <= j < i ==> GoodCase(f.cases[j]) && shapes[j] == ShapeOf(f.cases[j])
      invariant forall id :: id in ids <==> exists j :: 0 <= j < i && f.cases[j].id == id
      invariant forall j, k :: 0 <= j < k < i ==> f.cases[j].id != f.cases[k].id
    {
      var shape := LoadShape(f.cases[i], ids);
      if shape.Err? {
        return Err(InvalidFixture);
      }
      ids := ids + {f.cases[i].id};
      shapes := shapes + [shape.value];
    }
    return Ok(shapes);
  }

  // ----- what an accepted case means -----

  lemma {:induction false} ZerosTotal(n: nat)
    ensures Total(seq(n, _ => "0")) == 0
  {
    if n > 0 {
      assert seq(n, _ => "0")[..n - 1] == seq(n - 1, _ => "0");
      ZerosTotal(n - 1);
      assert ParseDigits("0") == 0 by { ParseNumeral(0); assert Numeral(0) == "0"; }
    }
  }

  /** Every accepted case conserves value: what the outputs carry adds up to the inputs. */
  lemma ValueIsConserved(c: Case)
    requires GoodCase(c)
    ensures Total(ShapeOf(c).outputAmounts) == Total(c.inputAmounts)
  {
    hide PositiveTexts, KnownMode, Numeral, ParseDigits;
    var n, r := |c.paymentAmounts|, OutputAmounts(c);
    var change := Total(c.inputAmounts) - Total(c.paymentAmounts);
    RolesDiffer();
    ParseNumeral(change);
    if HasChange(c.outputRoles, n) {
      var k := |r| - n - 1;
      assert r == c.paymentAmounts + [Numeral(change)] + seq(k, _ => "0");
      TotalConcat(c.paymentAmounts + [Numeral(change)], seq(k, _ => "0"));
      TotalConcat(c.paymentAmounts, [Numeral(change)]);
      SingleTotal(Numeral(change));
      ZerosTotal(k);
    } else {
      var k := |r| - n;
      assert r == c.paymentAmounts + seq(k, _ => "0");
      TotalConcat(c.paymentAmounts, seq(k, _ => "0"));
      ZerosTotal(k);
    }
  }

  lemma SingleTotal(text: string)
    ensures Total([text]) == ParseDigits(text)
  {
    assert [text][..0] == [];
  }

  // ----- the output check of `validateBatch` -----

  datatype Output = Output(role: string, amount: nat)

  function Roles(outputs: seq<Output>): (r: seq<string>)
    ensures |r| == |outputs| && forall i :: 0 <= i < |r| ==> r[i] == outputs[i].role
  {
    seq(|outputs|, i requires 0 <= i < |outputs| => outputs[i].role)
  }

  /** Roles and amounts of the outputs of a batch with the given payments. */
  predicate GoodOutputs(outputs: seq<Output>, payments: seq<nat>) {
    && InLanguage(Roles(outputs), |payments|)
    && forall i :: 0 <= i < |outputs| ==>
         && (outputs[i].role == PADDING <==> outputs[i].amount == 0)
         && (i < |payments| ==> outputs[i].amount == payments[i])
  }

  /**
   * The accepted outputs, spelled out: the payments, all positive, then a positive change output or none, then
   * padding outputs that carry nothing.
   */
  lemma GoodOutputsMean(outputs: seq<Output>, payments: seq<nat>)
    ensures GoodOutputs(outputs, payments) <==>
              && |payments| <= |outputs|
              && (forall i :: 0 <= i < |payments| ==> payments[i] > 0 && outputs[i] == Output("payment", payments[i]))
              && var rest := outputs[|payments|..];
                 || rest == Repeat(|rest|, Output("padding", 0))
                 || (rest != [] && rest[0].amount > 0
                     && rest == [Output("change", rest[0].amount)] + Repeat(|rest| - 1, Output("padding", 0)))
  {
    RolesDiffer();
  }

  /** The loop with its `sawChange` and `sawPadding` flags. */
  method ValidateOutputs(outputs: seq<Output>, payments: seq<nat>) returns (ok: bool)
    ensures ok <==> GoodOutputs(outputs, payments)
  {
    RolesDiffer();
    if |outputs| < |payments| {
      return false;
    }
    var sawChange, sawPadding := false, false;
    for index := 0 to |outputs|
      invariant GoodPrefix(outputs, payments, index)
      invariant sawChange <==> index > |payments| && outputs[|payments|].role == CHANGE
      invariant sawPadding <==> index > |payments| && outputs[index - 1].role == PADDING
    {
      var role, amount := outputs[index].role, outputs[index].amount;
      if index < |payments| {
        if role != PAYMENT {
          return false;
        }
      } else if role == CHANGE {
        if sawChange || sawPadding || index != |payments| {
          return false;
        }
        sawChange := true;
      } else if role == PADDING {
        sawPadding := true;
      } else {
        return false;
      }
      if (role == PAYMENT || role == CHANGE) && amount == 0 {
        return false;
      }
      if role == PADDING && amount != 0 {
        return false;
      }
      if role == PAYMENT && amount != payments[index] {
        return false;
      }
    }
    return true;
  }

  ghost predicate GoodPrefix(outputs: seq<Output>, payments: seq<nat>, n: nat)
    requires |payments| <= |outputs| && n <= |outputs|
  {
    forall i :: 0 <= i < n ==>
      && (if i < |payments| then outputs[i].role == PAYMENT
          else if i == |payments| then outputs[i].role == CHANGE || outputs[i].role == PADDING
          else outputs[i].role == PADDING)
      && (outputs[i].role == PADDING <==> outputs[i].amount == 0)
      && (i < |payments| ==> outputs[i].amount == payments[i])
  }

  function Amounts(texts: seq<string>): (r: seq<nat>)
    requires forall i :: 0 <= i < |texts| ==> 0 <= ParseDigits(texts[i])
    ensures |r| == |texts| && forall i :: 0 <= i < |r| ==> r[i] == ParseDigits(texts[i])
  {
    seq(|texts|, i requires 0 <= i < |texts| => ParseDigits(texts[i]) as nat)
  }

  /** The outputs of a shape, as a batch would report them. */
  function ShapeOutputs(s: Shape): (r: seq<Output>)
    requires |s.outputRoles| == |s.outputAmounts| && forall i :: 0 <= i < |s.outputAmounts| ==> 0 <= ParseDigits(s.outputAmounts[i])
    ensures |r| == |s.outputRoles| && forall i :: 0 <= i < |r| ==> r[i] == Output(s.outputRoles[i], ParseDigits(s.outputAmounts[i]))
  {
    seq(|s.outputRoles|, i requires 0 <= i < |s.outputRoles| => Output(s.outputRoles[i], ParseDigits(s.outputAmounts[i])))
  }

  /** A batch that follows an accepted release shape passes the output check: both sides use one role language. */
  lemma ShapePassesOutputCheck(c: Case)
    requires GoodCase(c)
    ensures var s := ShapeOf(c);
            && (forall i :: 0 <= i < |s.outputAmounts| ==> 0 <= ParseDigits(s.outputAmounts[i]))
            && (forall i :: 0 <= i < |c.paymentAmounts| ==> 0 <= ParseDigits(c.paymentAmounts[i]))
            && GoodOutputs(ShapeOutputs(s), Amounts(c.paymentAmounts))
  {
    hide Numeral, ParseDigits, Total, KnownMode;
    RolesDiffer();
    var s := ShapeOf(c);
    var change := Total(c.inputAmounts) - Total(c.paymentAmounts);
    forall i | 0 <= i < |c.paymentAmounts| ensures 0 < ParseDigits(c.paymentAmounts[i]) {
      DigitsAreNat(c.paymentAmounts[i]);
    }
    ParseNumeral(change);
    ZeroText();
    forall i | 0 <= i < |s.outputAmounts|
      ensures 0 <= ParseDigits(s.outputAmounts[i]) && (s.outputRoles[i] == PADDING <==> ParseDigits(s.outputAmounts[i]) == 0)
    {
    }
    assert Roles(ShapeOutputs(s)) == c.outputRoles;
  }

  lemma ZeroText()
    ensures ParseDigits("0") == 0
  {
    ParseNumeral(0);
    assert Numeral(0) == "0";
  }
}
