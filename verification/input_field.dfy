/**
 * The derived state of the input field: its element ids, the ARIA
 * attributes of the input, which trailing controls and which message are
 * shown, and the one piece of local state, the displayed input type that
 * the password toggle flips.
 */
module InputField {
  import opened Options

  datatype InputType = Text | Password | Email | Number

  /**
   * The props that have behaviour. `hasOnChange` says whether an `onChange`
   * handler is supplied; optional strings are `None` when not given.
   */
  datatype Props = Props(
    value: Option<string>,
    hasOnChange: bool,
    labelText: Option<string>,
    helperText: Option<string>,
    errorMessage: Option<string>,
    invalid: bool,
    loading: bool,
    inputType: InputType,
    clearable: bool,
    passwordToggle: bool,
    id: Option<string>)

  /** A JavaScript string that is truthy: given and not empty. */
  predicate Truthy(s: Option<string>)
  {
    s.Some? && |s.value| > 0
  }

  // ---------------------------------------------------------------------
  // Element ids

  const AutoPrefix := "input-"
  const DescSuffix := "-desc"
  const ErrSuffix := "-err"

  /** `id ?? "input-" + autoId`: a given id wins, even an empty one. */
  function InputId(id: Option<string>, autoId: string): (r: string)
    ensures id.Some? ==> r == id.value
    ensures id.None? ==> |r| == |AutoPrefix| + |autoId| && r[..|AutoPrefix|] == AutoPrefix && r[|AutoPrefix|..] == autoId
  {
    match id
    case Some(given) => given
    case None => AutoPrefix + autoId
  }

  /** Two instances without an `id` prop and with different automatic ids get different input ids. */
  lemma AutoIdsDistinct(a: string, b: string)
    requires a != b
    ensures InputId(None, a) != InputId(None, b)
  {
    var x, y := InputId(None, a), InputId(None, b);
    assert x[|AutoPrefix|..] == a && y[|AutoPrefix|..] == b;
  }

  /** The id of the helper text element. */
  function DescId(inputId: string): (r: string)
    ensures |r| == |inputId| + 5 && r[..|inputId|] == inputId && r[|inputId|..] == DescSuffix
  {
    inputId + DescSuffix
  }

  /** The id of the error element. */
  function ErrId(inputId: string): (r: string)
    ensures |r| == |inputId| + 4 && r[..|inputId|] == inputId && r[|inputId|..] == ErrSuffix
  {
    inputId + ErrSuffix
  }

  /**
   * The input, its helper text and its error carry three different ids, and
   * inputs with different ids have different helper and error ids.
   */
  lemma IdsDistinct(inputId: string, other: string)
    ensures DescId(inputId) != ErrId(inputId)
    ensures DescId(inputId) != inputId && ErrId(inputId) != inputId
    ensures inputId != other ==> DescId(inputId) != DescId(other) && ErrId(inputId) != ErrId(other)
  {
    if inputId != other && |inputId| == |other| {
      assert DescId(inputId)[..|inputId|] == inputId && DescId(other)[..|other|] == other;
      assert ErrId(inputId)[..|inputId|] == inputId && ErrId(other)[..|other|] == other;
    }
  }

  // ---------------------------------------------------------------------
  // Validity

  /** `isInvalid`: the `invalid` prop or a non-empty error message. */
  predicate IsInvalid(p: Props)
  {
    p.invalid || Truthy(p.errorMessage)
  }

  /** `aria-invalid={isInvalid || undefined}`: present and true, or absent. */
  function AriaInvalid(p: Props): (a: Option<bool>)
    ensures a.Some? <==> p.invalid || Truthy(p.errorMessage)
    ensures a != Some(false)
  {
    if IsInvalid(p) then Some(true) else None
  }

  /** The input gets the invalid style (`field-invalid`): decided by the `invalid` prop alone. */
  predicate InvalidStyled(p: Props)
  {
    p.invalid
  }

  /**
   * The invalid style implies `aria-invalid`, but not the other way round:
   * an error message alone marks the input invalid for assistive technology
   * without giving it the invalid style.
   */
  lemma ErrorWithoutInvalidStyle(p: Props)
    ensures InvalidStyled(p) ==> AriaInvalid(p) == Some(true)
    ensures !p.invalid && Truthy(p.errorMessage) ==> AriaInvalid(p) == Some(true) && !InvalidStyled(p)
  {
  }

  // ---------------------------------------------------------------------
  // Messages below the input

  /** A paragraph under the input: its id, its text and whether it has the alert role. */
  datatype Message = Message(id: string, text: string, alert: bool)

  /** The helper and error paragraphs that are rendered, in document order. */
  function Messages(p: Props, inputId: string): (ms: seq<Message>)
    ensures |ms| <= 1
    ensures Truthy(p.errorMessage) <==> exists m :: m in ms && m.alert
    ensures forall m :: m in ms && m.alert ==>
      Truthy(p.errorMessage) && m == Message(ErrId(inputId), p.errorMessage.value, true)
    ensures forall m :: m in ms && !m.alert ==>
      Truthy(p.helperText) && m == Message(DescId(inputId), p.helperText.value, false)
    ensures (exists m :: m in ms && !m.alert) <==> Truthy(p.helperText) && !Truthy(p.errorMessage)
  {
    var helper := if Truthy(p.helperText) && !Truthy(p.errorMessage)
      then [Message(DescId(inputId), p.helperText.value, false)] else [];
    var error := if Truthy(p.errorMessage)
      then [Message(ErrId(inputId), p.errorMessage.value, true)] else [];
    assert helper != [] ==> helper[0] in helper + error;
    assert error != [] ==> error[0] in helper + error;
    helper + error
  }

  /** Whenever an error paragraph is shown, the input is marked invalid for assistive technology. */
  lemma AlertMeansInvalid(p: Props, inputId: string)
    ensures (exists m :: m in Messages(p, inputId) && m.alert) ==> AriaInvalid(p) == Some(true)
  {
  }

  // ---------------------------------------------------------------------
  // aria-describedby

  /** The ids that `aria-describedby` lists, in order. */
  function DescribedByTokens(p: Props, inputId: string): (ts: seq<string>)
    ensures |ts| <= 2
    ensures DescId(inputId) in ts <==> Truthy(p.helperText)
    ensures ErrId(inputId) in ts <==> Truthy(p.errorMessage)
    ensures forall t :: t in ts ==> t == DescId(inputId) || t == ErrId(inputId)
  {
    IdsDistinct(inputId, inputId);
    (if Truthy(p.helperText) then [DescId(inputId)] else [])
      + (if Truthy(p.errorMessage) then [ErrId(inputId)] else [])
  }

  /** Class-name style joining: the tokens separated by single spaces. */
  function JoinTokens(ts: seq<string>): (s: string)
    ensures ts == [] ==> s == []
    ensures ts != [] && ts[0] != [] ==> s != []
    ensures |ts| == 1 ==> s == ts[0]
    decreases |ts|
  {
    if ts == [] then ""
    else if |ts| == 1 then ts[0]
    else ts[0] + " " + JoinTokens(ts[1..])
  }

  /** `aria-describedby`: the listed ids joined by spaces (empty when there is nothing to list). */
  function AriaDescribedBy(p: Props, inputId: string): (s: string)
    ensures s == "" <==> !Truthy(p.helperText) && !Truthy(p.errorMessage)
  {
    JoinTokens(DescribedByTokens(p, inputId))
  }

  /** The space-separated words of `s`, including empty ones between adjacent spaces. */
  function Words(s: string): (ws: seq<string>)
    ensures |ws| >= 1
  {
    if s == [] then [[]]
    else if s[0] == ' ' then [[]] + Words(s[1..])
    else
      var rest := Words(s[1..]);
      [[s[0]] + rest[0]] + rest[1..]
  }

  /** How a reader of an id-reference list splits it: nothing for the empty string, otherwise its words. */
  function SplitTokens(s: string): seq<string>
  {
    if s == [] then [] else Words(s)
  }

  lemma {:induction false} WordsOfWord(w: string)
    requires ' ' !in w
    ensures Words(w) == [w]
    decreases |w|
  {
    if w != [] {
      WordsOfWord(w[1..]);
      assert [w[0]] + w[1..] == w;
    }
  }

  lemma {:induction false} WordsSeparated(w: string, rest: string)
    requires ' ' !in w
    ensures Words(w + " " + rest) == [w] + Words(rest)
    decreases |w|
  {
    if w == [] {
      assert w + " " + rest == [' '] + rest;
      assert (w + " " + rest)[1..] == rest;
    } else {
      var s := w + " " + rest;
      assert s[1..] == w[1..] + " " + rest;
      WordsSeparated(w[1..], rest);
      assert [w[0]] + w[1..] == w;
    }
  }

  /** Joining tokens that are non-empty and hold no space, then splitting, gives the tokens back. */
  lemma {:induction false} SplitJoin(ts: seq<string>)
    requires forall t :: t in ts ==> t != [] && ' ' !in t
    ensures SplitTokens(JoinTokens(ts)) == ts
    decreases |ts|
  {
    if |ts| == 1 {
      WordsOfWord(ts[0]);
    } else if |ts| > 1 {
      assert ts[0] in ts;
      assert forall t :: t in ts[1..] ==> t in ts;
      SplitJoin(ts[1..]);
      WordsSeparated(ts[0], JoinTokens(ts[1..]));
      assert ts == [ts[0]] + ts[1..];
    }
  }

  /**
   * When the input id holds no space, a reader of `aria-describedby` finds
   * exactly the helper id when there is helper text and the error id when
   * there is an error message.
   */
  lemma DescribedByReadsBack(p: Props, inputId: string)
    requires ' ' !in inputId
    ensures SplitTokens(AriaDescribedBy(p, inputId)) == DescribedByTokens(p, inputId)
  {
    var ts := DescribedByTokens(p, inputId);
    forall t | t in ts ensures t != [] && ' ' !in t {
      if t == DescId(inputId) {
        assert t == inputId + DescSuffix;
      } else {
        assert t == inputId + ErrSuffix;
      }
    }
    SplitJoin(ts);
  }

  /** Every rendered message is referenced by `aria-describedby`. */
  lemma MessagesAreDescribed(p: Props, inputId: string)
    ensures forall m :: m in Messages(p, inputId) ==> m.id in DescribedByTokens(p, inputId)
  {
  }

  /**
   * With both helper text and an error message, `aria-describedby` still
   * names the helper id although no element carries it: the helper
   * paragraph is hidden by the error.
   */
  lemma DescribedByNamesHiddenHelper(p: Props, inputId: string)
    requires Truthy(p.helperText) && Truthy(p.errorMessage)
    ensures DescId(inputId) in DescribedByTokens(p, inputId)
    ensures forall m :: m in Messages(p, inputId) ==> m.id != DescId(inputId)
  {
    IdsDistinct(inputId, inputId);
  }

  // ---------------------------------------------------------------------
  // Trailing controls

  /** The spinner is shown while loading. */
  predicate SpinnerShown(p: Props)
  {
    p.loading
  }

  /** The clear button: clearable, not loading and a non-empty value. */
  predicate ClearShown(p: Props)
  {
    p.clearable && !p.loading && Truthy(p.value)
  }

  /** `showPasswordToggle`: asked for, and the `type` prop is password. */
  predicate ShowPasswordToggle(p: Props)
  {
    p.passwordToggle && p.inputType == Password
  }

  /** The password toggle button is rendered. */
  predicate PasswordToggleShown(p: Props)
  {
    ShowPasswordToggle(p) && !p.loading
  }

  /** Loading replaces both trailing buttons with the spinner. */
  lemma LoadingSuppressesControls(p: Props)
    ensures p.loading ==> SpinnerShown(p) && !ClearShown(p) && !PasswordToggleShown(p)
    ensures ClearShown(p) || PasswordToggleShown(p) ==> !SpinnerShown(p)
    ensures PasswordToggleShown(p) ==> p.inputType == Password
  {
  }

  /** The clear button and the password toggle are not exclusive of each other. */
  lemma ClearAndToggleTogether()
    ensures var p := Props(Some("secret"), true, None, None, None, false, false, Password, true, true, None);
      ClearShown(p) && PasswordToggleShown(p)
  {
  }

  /**
   * What activating the clear button passes to `onChange` as the target
   * value; `None` when no handler is supplied and nothing happens.
   */
  function ClearEmits(p: Props): (emitted: Option<string>)
    ensures emitted.Some? <==> p.hasOnChange
    ensures emitted.Some? ==> emitted.value == ""
  {
    if p.hasOnChange then Some("") else None
  }

  /** A parent that applies the emitted value hides the clear button. */
  lemma ClearingHidesClear(p: Props)
    requires p.hasOnChange
    ensures !ClearShown(p.(value := ClearEmits(p)))
  {
  }

  // ---------------------------------------------------------------------
  // Password visibility

  /** The updater passed to `setInternalType`: password becomes text, anything else password. */
  function NextType(t: InputType): (n: InputType)
    ensures n == Password <==> t != Password
    ensures n == Text <==> t == Password
  {
    if t == Password then Text else Password
  }

  /**
   * Two toggles from password or text come back to it; email and number
   * become password on the first toggle and text on the second.
   */
  lemma NextTypeTwice(t: InputType)
    ensures t == Password || t == Text ==> NextType(NextType(t)) == t
    ensures t == Email || t == Number ==> NextType(t) == Password && NextType(NextType(t)) == Text
  {
  }

  /** The accessible name of the toggle for the displayed type. */
  function ToggleLabel(displayed: InputType): (name: string)
    ensures name == "Show password" <==> displayed == Password
    ensures name == "Hide password" <==> displayed != Password
  {
    if displayed == Password then
      assert "Show password"[0] == 'S'; "Show password"
    else
      assert "Hide password"[0] == 'H'; "Hide password"
  }

  /** The label element: shown for a non-empty label, pointing at the input. */
  function LabelFor(p: Props, inputId: string): (target: Option<string>)
    ensures target.Some? <==> Truthy(p.labelText)
    ensures target.Some? ==> target.value == inputId
  {
    if Truthy(p.labelText) then Some(inputId) else None
  }

  // ---------------------------------------------------------------------
  // The component instance

  /** One mounted input field: the props of the latest render, its automatic id and its displayed type. */
  class InputFieldInstance {
    var props: Props
    const autoId: string
    var internalType: InputType

    /** The first render: the displayed type starts as the `type` prop. */
    constructor(p: Props, autoId: string)
      ensures props == p && this.autoId == autoId && internalType == p.inputType
    {
      props := p;
      this.autoId := autoId;
      internalType := p.inputType;
    }

    /** A re-render keeps the displayed type even if the `type` prop changed. */
    method ReceiveProps(p: Props)
      modifies this
      ensures props == p && internalType == old(internalType)
    {
      props := p;
    }

    /** The input id of the latest render: the `id` prop, or "input-" and the automatic id. */
    function Id(): string
      reads this
    {
      InputId(props.id, autoId)
    }

    /** A click on the password toggle; the props, and so the value, are untouched. */
    method TogglePasswordVisibility()
      requires PasswordToggleShown(props)
      modifies this
      ensures internalType == NextType(old(internalType)) && props == old(props)
    {
      internalType := NextType(internalType);
    }

    /** A click on the clear button: what `onChange` receives as the target value, if it is called. */
    method Clear() returns (emitted: Option<string>)
      requires ClearShown(props)
      ensures emitted == ClearEmits(props)
      ensures emitted.Some? <==> props.hasOnChange
      ensures emitted.Some? ==> emitted.value == ""
    {
      emitted := ClearEmits(props);
    }
  }

  // ---------------------------------------------------------------------
  // Interactions

  /**
   * A password field with the toggle: masked at first, shown as text after
   * one click, masked again after a second, with the value unchanged.
   */
  method ToggleTwice(p: Props, autoId: string)
      returns (first: InputType, second: InputType, third: InputType, value: Option<string>)
    requires p.inputType == Password && p.passwordToggle && !p.loading
    ensures first == Password && second == Text && third == Password
    ensures value == p.value
  {
    var f := new InputFieldInstance(p, autoId);
    first := f.internalType;
    f.TogglePasswordVisibility();
    second := f.internalType;
    f.TogglePasswordVisibility();
    third := f.internalType;
    value := f.props.value;
  }

  /** A controlled field whose parent applies what the clear button emits ends up empty, without the button. */
  method ClearControlled(p: Props, autoId: string) returns (after: Option<string>, stillShown: bool)
    requires ClearShown(p) && p.hasOnChange
    ensures after == Some("") && !stillShown
  {
    var f := new InputFieldInstance(p, autoId);
    var emitted := f.Clear();
    f.ReceiveProps(f.props.(value := emitted));
    after := f.props.value;
    stillShown := ClearShown(f.props);
  }

  /**
   * A field mounted without an `id` prop, with a label and helper text and
   * no error: the label and `aria-describedby` both reach their targets
   * through the automatic id, and the one paragraph shown carries the
   * described id.
   */
  method RenderedIds(p: Props, autoId: string) returns (labelTarget: Option<string>, describedBy: string, shown: seq<Message>)
    requires p.id.None? && Truthy(p.labelText) && Truthy(p.helperText) && !Truthy(p.errorMessage)
    ensures labelTarget == Some(AutoPrefix + autoId)
    ensures describedBy == AutoPrefix + autoId + DescSuffix
    ensures |shown| == 1 && shown[0].id == describedBy && shown[0].text == p.helperText.value && !shown[0].alert
  {
    var f := new InputFieldInstance(p, autoId);
    labelTarget := LabelFor(f.props, f.Id());
    describedBy := AriaDescribedBy(f.props, f.Id());
    shown := Messages(f.props, f.Id());
    assert shown[0] in shown;
  }

  /**
   * The displayed type is taken from the `type` prop only at mount: a field
   * mounted as text and re-rendered as password shows the toggle, yet still
   * displays text and labels the toggle "Hide password".
   */
  method LateTypeChange(p: Props, autoId: string) returns (displayed: InputType, toggleName: string, toggle: bool)
    requires p.inputType == Text && p.passwordToggle && !p.loading
    ensures displayed == Text && toggleName == "Hide password" && toggle
  {
    var f := new InputFieldInstance(p, autoId);
    f.ReceiveProps(p.(inputType := Password));
    displayed := f.internalType;
    toggleName := ToggleLabel(displayed);
    toggle := PasswordToggleShown(f.props);
  }
}
