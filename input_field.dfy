/**
 * The text field component (src/components/InputField/InputField.tsx): its local state
 * `internalValue` and `showPassword`, the handlers that change it, and the values it
 * derives for rendering. Each handler is one atomic transition of a `Field` object; the
 * `onChange` callback is the event each handler returns, one per call.
 */
module InputField {
  import opened Wrappers

  /**
   * The props the field reads besides `value` (lines 3-17), with the defaults of lines
   * 38-44 already applied; `kind` is the `type` prop.
   */
  datatype FieldProps = FieldProps(
    labelText: Option<string>,
    placeholder: Option<string>,
    helperText: Option<string>,
    errorMessage: Option<string>,
    disabled: bool,
    invalid: bool,
    showClear: bool,
    showPasswordToggle: bool,
    kind: string)

  /** What `onChange` receives: the edit's new text, or the empty object the clear button sends. */
  datatype ChangeEvent = Edited(text: string) | Cleared

  /** The text under the field (lines 110-116). */
  datatype Message = ErrorText(text: string) | HelperText(text: string) | NoMessage

  /** A JavaScript string used as a condition: only the empty string is false. */
  predicate Truthy(s: Option<string>) {
    s.Some? && s.value != ""
  }

  /**
   * `inputType` (line 56): the field masks its text exactly when it is a password field
   * whose text has not been revealed through the toggle.
   */
  function InputType(kind: string, showPasswordToggle: bool, showPassword: bool): (t: string)
    ensures t == "password" <==> kind == "password" && !(showPasswordToggle && showPassword)
    ensures kind == "password" && showPasswordToggle && showPassword ==> t == "text"
    ensures !(kind == "password" && showPasswordToggle) ==> t == kind
  {
    if kind == "password" && showPasswordToggle then
      (if showPassword then "text" else "password")
    else kind
  }

  /** The clear button (line 83): offered only on a non-empty, enabled, clearable field. */
  predicate ClearButtonShown(showClear: bool, disabled: bool, text: string) {
    showClear && !disabled && text != ""
  }

  /** The reveal button (line 97). */
  predicate ToggleButtonShown(showPasswordToggle: bool, kind: string) {
    showPasswordToggle && kind == "password"
  }

  /** The reveal button's `aria-label` (line 99). */
  function ToggleButtonLabel(showPassword: bool): (l: string)
    ensures l == "hide password" <==> showPassword
    ensures l == "show password" <==> !showPassword
  {
    if showPassword then "hide password" else "show password"
  }

  /**
   * The message area (lines 110-116): the error text wins when the field is invalid and the
   * error text is non-empty; otherwise a non-empty helper text; otherwise nothing.
   */
  function MessageFor(invalid: bool, errorMessage: Option<string>, helperText: Option<string>): (m: Message)
    ensures m.ErrorText? <==> invalid && Truthy(errorMessage)
    ensures m.ErrorText? ==> m.text == errorMessage.value
    ensures m.HelperText? <==> !(invalid && Truthy(errorMessage)) && Truthy(helperText)
    ensures m.HelperText? ==> m.text == helperText.value
    ensures !m.NoMessage? ==> m.text != ""
  {
    if invalid && Truthy(errorMessage) then ErrorText(errorMessage.value)
    else if Truthy(helperText) then HelperText(helperText.value)
    else NoMessage
  }

  /** The visible label (line 60) is rendered only for a non-empty `label`. */
  predicate LabelShown(labelText: Option<string>) {
    Truthy(labelText)
  }

  /** The input's `aria-label` (line 70): `label ?? placeholder ?? 'input'`. */
  function AriaLabel(labelText: Option<string>, placeholder: Option<string>): string {
    labelText.GetOr(placeholder.GetOr("input"))
  }

  // ----- derived values ------------------------------------------------------------------

  /**
   * The reveal button is offered exactly when pressing it changes the input's type, and a
   * field that is not a password field is never masked.
   */
  lemma ToggleShownIffItMatters(kind: string, showPasswordToggle: bool)
    ensures ToggleButtonShown(showPasswordToggle, kind) <==>
              InputType(kind, showPasswordToggle, true) != InputType(kind, showPasswordToggle, false)
    ensures kind != "password" ==>
              InputType(kind, showPasswordToggle, true) == kind && InputType(kind, showPasswordToggle, false) == kind
  {
  }

  /**
   * On a field that offers the reveal button, the button reads `hide password` exactly when
   * the input shows its text, and `show password` exactly when it is masked.
   */
  lemma ToggleLabelDescribesType(kind: string, showPasswordToggle: bool, showPassword: bool)
    requires ToggleButtonShown(showPasswordToggle, kind)
    ensures ToggleButtonLabel(showPassword) == "hide password" <==>
              InputType(kind, showPasswordToggle, showPassword) == "text"
    ensures ToggleButtonLabel(showPassword) == "show password" <==>
              InputType(kind, showPasswordToggle, showPassword) == "password"
  {
  }

  /** An empty field never offers the clear button, so it is gone right after a clear. */
  lemma EmptyFieldHasNoClearButton(showClear: bool, disabled: bool)
    ensures !ClearButtonShown(showClear, disabled, "")
  {
  }

  /**
   * The accessible name: a visible label is also the accessible name; without a label the
   * placeholder is, and without either the word `input`. Because the code uses `??`, an
   * empty label is not shown but still becomes the (empty) accessible name.
   */
  lemma AriaLabelFallsBack(labelText: Option<string>, placeholder: Option<string>)
    ensures LabelShown(labelText) ==> AriaLabel(labelText, placeholder) == labelText.value
    ensures labelText.None? && placeholder.Some? ==> AriaLabel(labelText, placeholder) == placeholder.value
    ensures labelText.None? && placeholder.None? ==> AriaLabel(labelText, placeholder) == "input"
    ensures labelText == Some("") ==> !LabelShown(labelText) && AriaLabel(labelText, placeholder) == ""
  {
  }

  // ----- the component --------------------------------------------------------------------

  class Field {
    const props: FieldProps

    /** The `value` prop of the latest render, the dependency of the effect on line 49. */
    var value: Option<string>
    var internalValue: string
    var showPassword: bool

    /** The first render (lines 46-47). */
    constructor (props: FieldProps, value: Option<string>)
      ensures this.props == props && this.value == value
      ensures internalValue == value.GetOr("") && !showPassword
    {
      this.props := props;
      this.value := value;
      internalValue := value.GetOr("");
      showPassword := false;
    }

    /** The `type` the input is rendered with. */
    function CurrentType(): string
      reads this
    {
      InputType(props.kind, props.showPasswordToggle, showPassword)
    }

    /** `handleChange` (lines 51-54): takes the typed text and notifies `onChange` once. */
    method HandleChange(text: string) returns (event: ChangeEvent)
      modifies this`internalValue
      ensures internalValue == text && event == Edited(text)
    {
      internalValue := text;
      event := Edited(text);
    }

    /**
     * The clear button's handler (lines 86-89), reachable only while the button is shown:
     * empties the field, notifies `onChange` once, and takes the button away.
     */
    method Clear() returns (event: ChangeEvent)
      requires ClearButtonShown(props.showClear, props.disabled, internalValue)
      modifies this`internalValue
      ensures internalValue == "" && event == Cleared
      ensures !ClearButtonShown(props.showClear, props.disabled, internalValue)
    {
      internalValue := "";
      event := Cleared;
    }

    /**
     * The reveal button's handler (line 100), reachable only while the button is shown:
     * flips `showPassword`, which switches the input between masked and plain text.
     */
    method TogglePassword()
      requires ToggleButtonShown(props.showPasswordToggle, props.kind)
      modifies this`showPassword
      ensures showPassword == !old(showPassword)
      ensures CurrentType() == (if showPassword then "text" else "password")
    {
      showPassword := !showPassword;
    }

    /**
     * A render with the `value` prop `v` (line 49): the effect runs only when `v` differs
     * from the previous `value`, and then resets the text to `v`, or to '' when `v` is absent.
     */
    method ReceiveValue(v: Option<string>)
      modifies this`value, this`internalValue
      ensures value == v
      ensures v != old(value) ==> internalValue == v.GetOr("")
      ensures v == old(value) ==> internalValue == old(internalValue)
    {
      if v != value {
        internalValue := v.GetOr("");
      }
      value := v;
    }
  }

  // ----- scenarios -------------------------------------------------------------------------

  /**
   * A clearable field showing "hello" is emptied by the clear button and stays empty when the
   * parent renders it again with the same `value` (InputField.test.tsx, lines 11-17).
   */
  method ClearScenario() {
    var props := FieldProps(None, None, None, None, false, false, true, false, "text");
    var field := new Field(props, Some("hello"));
    assert ClearButtonShown(props.showClear, props.disabled, field.internalValue);
    var event := field.Clear();
    field.ReceiveValue(Some("hello"));
    assert field.internalValue == "";
    assert !ClearButtonShown(props.showClear, props.disabled, field.internalValue);
  }

  /** Two presses of the reveal button mask the password field again. */
  method RevealScenario() {
    var props := FieldProps(Some("Password"), None, None, None, false, false, false, true, "password");
    var field := new Field(props, None);
    assert field.CurrentType() == "password";
    field.TogglePassword();
    assert field.CurrentType() == "text";
    field.TogglePassword();
    assert field.CurrentType() == "password" && !field.showPassword;
  }
}
