/**
 * Form submission feedback: the hidden `referral_code` input, the busy submit
 * button and the restore that fires three seconds later. Timers all have the
 * same delay, so the pending restores fire in the order they were scheduled;
 * each restore carries the label read when its submit ran.
 */
module FormFeedback {
  import opened Wrappers
  import opened ReferralStore

  /** An input element of the form, in document order. */
  datatype Input = Input(name: string, kind: string, value: string)

  const ReferralField: string := "referral_code"
  const BusyLabel: string := "Sending..."

  /** What `querySelector('input[name=...]')` finds: the first input with that name. */
  function FirstNamed(inputs: seq<Input>, name: string): (r: Option<nat>)
    ensures r.Some? ==> r.value < |inputs| && inputs[r.value].name == name
    ensures r.Some? ==> forall j :: 0 <= j < r.value ==> inputs[j].name != name
    ensures r.None? ==> forall j :: 0 <= j < |inputs| ==> inputs[j].name != name
    decreases |inputs|
  {
    if inputs == [] then None
    else if inputs[0].name == name then Some(0)
    else
      match FirstNamed(inputs[1..], name)
      case Some(k) => Some(k + 1)
      case None => None
  }

  /** The number of inputs with the given name. */
  function CountNamed(inputs: seq<Input>, name: string): nat
    decreases |inputs|
  {
    if inputs == [] then 0
    else (if inputs[0].name == name then 1 else 0) + CountNamed(inputs[1..], name)
  }

  /** The referral step of a submit: set the first `referral_code` input, or append a hidden one. */
  function WithReferral(inputs: seq<Input>, code: string): (r: seq<Input>)
    ensures FirstNamed(r, ReferralField).Some? && r[FirstNamed(r, ReferralField).value].value == code
  {
    match FirstNamed(inputs, ReferralField)
    case Some(i) =>
      var r := inputs[i := inputs[i].(value := code)];
      FirstNamedAt(r, i, ReferralField);
      r
    case None =>
      var r := inputs + [Input(ReferralField, "hidden", code)];
      FirstNamedAt(r, |inputs|, ReferralField);
      r
  }

  /** The form as the page sees it: its inputs, the submit button, and the restores still pending. */
  datatype FormView = FormView(inputs: seq<Input>, buttonText: string, disabled: bool, pending: seq<string>)

  /** A submit with the stored code `code`: referral input, busy button, one more restore pending. */
  function SubmitView(v: FormView, code: Option<string>): (r: FormView)
    ensures r.disabled && r.buttonText == BusyLabel
    ensures |r.pending| == |v.pending| + 1 && r.pending[..|v.pending|] == v.pending
    ensures r.pending[|v.pending|] == v.buttonText
  {
    FormView(if Truthy(code) then WithReferral(v.inputs, code.value) else v.inputs,
             BusyLabel, true, v.pending + [v.buttonText])
  }

  /** The oldest pending restore fires: its label comes back and the button is enabled. */
  function RestoreView(v: FormView): (r: FormView)
    requires v.pending != []
    ensures !r.disabled && r.inputs == v.inputs
    ensures [r.buttonText] + r.pending == v.pending
  {
    FormView(v.inputs, v.pending[0], false, v.pending[1..])
  }

  /** The `n` oldest pending restores fire in turn. */
  function Restores(v: FormView, n: nat): (r: FormView)
    requires n <= |v.pending|
    ensures r.inputs == v.inputs && r.pending == v.pending[n..]
    ensures n > 0 ==> !r.disabled && r.buttonText == v.pending[n - 1]
    decreases n
  {
    if n == 0 then v else Restores(RestoreView(v), n - 1)
  }

  lemma {:induction false} CountNamedNone(inputs: seq<Input>, name: string)
    requires forall j :: 0 <= j < |inputs| ==> inputs[j].name != name
    ensures CountNamed(inputs, name) == 0
    decreases |inputs|
  {
    if inputs != [] {
      CountNamedNone(inputs[1..], name);
    }
  }

  lemma {:induction false} CountNamedAppend(inputs: seq<Input>, x: Input, name: string)
    ensures CountNamed(inputs + [x], name) == CountNamed(inputs, name) + (if x.name == name then 1 else 0)
    decreases |inputs|
  {
    if inputs == [] {
      assert inputs + [x] == [x];
      assert [x][1..] == [];
    } else {
      assert (inputs + [x])[1..] == inputs[1..] + [x];
      CountNamedAppend(inputs[1..], x, name);
    }
  }

  lemma {:induction false} CountNamedUpdate(inputs: seq<Input>, i: nat, x: Input, name: string)
    requires i < |inputs| && x.name == inputs[i].name
    ensures CountNamed(inputs[i := x], name) == CountNamed(inputs, name)
    decreases |inputs|
  {
    if i > 0 {
      assert inputs[i := x][1..] == inputs[1..][i - 1 := x];
      CountNamedUpdate(inputs[1..], i - 1, x, name);
    }
  }

  lemma {:induction false} CountNamedPositive(inputs: seq<Input>, i: nat, name: string)
    requires i < |inputs| && inputs[i].name == name
    ensures CountNamed(inputs, name) >= 1
    decreases |inputs|
  {
    if i > 0 {
      CountNamedPositive(inputs[1..], i - 1, name);
    }
  }

  /**
   * After the referral step the form holds at least one `referral_code` input
   * (a hidden one appended only if it had none), the first of them holds the
   * code, and every other input, later `referral_code` inputs included, is as
   * it was.
   */
  lemma ReferralInputSet(inputs: seq<Input>, code: string)
    ensures var r := WithReferral(inputs, code);
      CountNamed(r, ReferralField) == (if CountNamed(inputs, ReferralField) == 0 then 1 else CountNamed(inputs, ReferralField))
      && FirstNamed(r, ReferralField).Some?
      && r[FirstNamed(r, ReferralField).value].value == code
      && |r| == |inputs| + (if FirstNamed(inputs, ReferralField).None? then 1 else 0)
      && (forall j :: 0 <= j < |inputs| && Some(j) != FirstNamed(inputs, ReferralField) ==> r[j] == inputs[j])
      && (FirstNamed(inputs, ReferralField).Some? ==>
            r[FirstNamed(inputs, ReferralField).value] == inputs[FirstNamed(inputs, ReferralField).value].(value := code))
      && (FirstNamed(inputs, ReferralField).None? ==> r[|inputs|] == Input(ReferralField, "hidden", code))
  {
    var r := WithReferral(inputs, code);
    match FirstNamed(inputs, ReferralField)
    case Some(i) =>
      CountNamedUpdate(inputs, i, inputs[i].(value := code), ReferralField);
      CountNamedPositive(inputs, i, ReferralField);
      assert FirstNamed(r, ReferralField) == Some(i) by {
        FirstNamedAt(r, i, ReferralField);
      }
    case None =>
      CountNamedNone(inputs, ReferralField);
      CountNamedAppend(inputs, Input(ReferralField, "hidden", code), ReferralField);
      FirstNamedAt(r, |inputs|, ReferralField);
  }

  /** The first input with a name is the one at `i` when no earlier input has it. */
  lemma FirstNamedAt(inputs: seq<Input>, i: nat, name: string)
    requires i < |inputs| && inputs[i].name == name
    requires forall j :: 0 <= j < i ==> inputs[j].name != name
    ensures FirstNamed(inputs, name) == Some(i)
  {
  }

  /** A form with at most one `referral_code` input ends a submit with exactly one, holding the code. */
  lemma SingleReferralInput(v: FormView, code: string)
    requires CountNamed(v.inputs, ReferralField) <= 1
    ensures var r := SubmitView(v, Some(code)).inputs;
      code != "" ==> CountNamed(r, ReferralField) == 1 && FirstNamed(r, ReferralField).Some? && r[FirstNamed(r, ReferralField).value].value == code
  {
    ReferralInputSet(v.inputs, code);
  }

  /** Without a code the inputs are untouched; the button is busy either way. */
  lemma SubmitWithoutCode(v: FormView, code: Option<string>)
    requires !Truthy(code)
    ensures SubmitView(v, code).inputs == v.inputs
    ensures SubmitView(v, code).disabled && SubmitView(v, code).buttonText == BusyLabel
  {
  }

  /**
   * A submit's own restore, once the restores queued before it have fired,
   * gives back the label read at that submit, enables the button and leaves
   * nothing pending.
   */
  lemma SubmitThenRestore(v: FormView, code: Option<string>)
    ensures var u := SubmitView(v, code);
      var w := RestoreView(Restores(u, |v.pending|));
      w.buttonText == v.buttonText && !w.disabled && w.pending == [] && w.inputs == u.inputs
  {
    var u := SubmitView(v, code);
    assert u.pending[|v.pending|..] == [v.buttonText];
  }

  /**
   * Two submits before the first restore: the second reads the busy label as
   * its original, so once both restores fire the button is enabled but still
   * says "Sending...".
   */
  lemma DoubleSubmitLeavesBusyLabel(v: FormView, c1: Option<string>, c2: Option<string>)
    requires v.pending == []
    ensures var w := RestoreView(RestoreView(SubmitView(SubmitView(v, c1), c2)));
      w.buttonText == BusyLabel && !w.disabled && w.pending == []
  {
  }

  /**
   * A code stored from the address at `t` and still live at `now` reaches the
   * form: it ends with exactly one `referral_code` input holding that code and a
   * busy button, and reading the code leaves storage as it was.
   */
  lemma StoredCodeReachesForm(v: FormView, s: Storage, q: Query, t: nat, now: nat)
    requires Truthy(QueryReferral(q)) && now < t + TtlMs
    requires CountNamed(v.inputs, ReferralField) <= 1
    ensures var (code, after) := ReadStored(AfterStore(s, q, t), now);
      var w := SubmitView(v, code);
      after == AfterStore(s, q, t)
      && CountNamed(w.inputs, ReferralField) == 1
      && FirstNamed(w.inputs, ReferralField).Some?
      && w.inputs[FirstNamed(w.inputs, ReferralField).value].value == QueryReferral(q).value
      && w.disabled && w.buttonText == BusyLabel
  {
    StoreThenRead(s, q, t, now);
    SingleReferralInput(v, QueryReferral(q).value);
  }

  /**
   * A form element. `hasSubmitButton` records whether the form contains a
   * submit button; the handler reads its label first, so without one it stops
   * before doing anything.
   */
  class Form {
    var inputs: seq<Input>
    var buttonText: string
    var disabled: bool
    var pending: seq<string>
    const hasSubmitButton: bool

    function View(): FormView
      reads this
    {
      FormView(inputs, buttonText, disabled, pending)
    }

    /** The button is disabled only while a restore is pending. */
    predicate Valid()
      reads this
    {
      disabled ==> pending != []
    }

    constructor (inputs: seq<Input>, buttonText: string, hasSubmitButton: bool)
      ensures Valid() && View() == FormView(inputs, buttonText, false, [])
      ensures this.hasSubmitButton == hasSubmitButton
    {
      this.inputs := inputs;
      this.buttonText := buttonText;
      this.disabled := false;
      this.pending := [];
      this.hasSubmitButton := hasSubmitButton;
    }

    /** The submit handler, given the code `getStoredReferralCode` returned. */
    method Submit(code: Option<string>)
      requires Valid()
      modifies this
      ensures Valid()
      ensures View() == SubmitView(old(View()), code)
    {
      var original := buttonText;
      if Truthy(code) {
        var found := FirstNamed(inputs, ReferralField);
        if found.Some? {
          var i := found.value;
          inputs := inputs[i := inputs[i].(value := code.value)];
        } else {
          inputs := inputs + [Input(ReferralField, "hidden", code.value)];
        }
      }
      disabled := true;
      buttonText := BusyLabel;
      pending := pending + [original];
    }

    /** The oldest pending three-second timer fires. */
    method FireRestore()
      requires Valid() && pending != []
      modifies this
      ensures Valid()
      ensures View() == RestoreView(old(View()))
    {
      buttonText := pending[0];
      disabled := false;
      pending := pending[1..];
    }
  }
}
