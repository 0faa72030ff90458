/** The front end's global notification bar and its four message variants. */
module Snackbar {
  import opened Wrappers

  datatype Snackbar = Snackbar(show: bool, message: string, color: string, timeout: nat)

  /** The bar before any message: hidden, empty, the info colour and three seconds. */
  const Initial: Snackbar := Snackbar(false, "", "info", 3000)

  /** `showMessage`: the bar is shown with exactly the given text, colour and timeout (milliseconds). */
  function ShowMessage(s: Snackbar, message: string, color: string, timeout: nat): (t: Snackbar)
    ensures t.show && t.message == message && t.color == color && t.timeout == timeout
  {
    Snackbar(true, message, color, timeout)
  }

  /** The colour and default timeout of each variant. */
  datatype Variant = Success | Error | Warning | Info

  function VariantColor(v: Variant): string
  {
    match v
    case Success => "success"
    case Error => "error"
    case Warning => "warning"
    case Info => "info"
  }

  function DefaultTimeout(v: Variant): nat
  {
    match v
    case Success => 3000
    case Error => 5000
    case Warning => 4000
    case Info => 3000
  }

  /** `showSuccess`, `showError`, `showWarning`, `showInfo`, with the timeout optional. */
  function ShowVariant(s: Snackbar, v: Variant, message: string, timeout: Option<nat>): (t: Snackbar)
    ensures t.show && t.message == message
    ensures t.color == VariantColor(v)
    ensures timeout.Some? ==> t.timeout == timeout.value
    ensures timeout.None? ==> t.timeout == DefaultTimeout(v)
    ensures t == ShowMessage(s, message, VariantColor(v), t.timeout)
  {
    ShowMessage(s, message, VariantColor(v), timeout.GetOr(DefaultTimeout(v)))
  }

  /** `hideMessage`: the bar is hidden and keeps its text, colour and timeout. */
  function Hide(s: Snackbar): (t: Snackbar)
    ensures !t.show && t.message == s.message && t.color == s.color && t.timeout == s.timeout
  {
    s.(show := false)
  }

  /** Errors stay longest, then warnings; successes and infos share the shortest time. */
  lemma VariantTimeoutsOrdered()
    ensures DefaultTimeout(Error) > DefaultTimeout(Warning) > DefaultTimeout(Success) == DefaultTimeout(Info)
    ensures forall v, w :: VariantColor(v) == VariantColor(w) ==> v == w
  {
  }

  /** What a message shows does not depend on what was shown before, and hiding afterwards keeps it. */
  lemma ShowForgetsPrevious(s: Snackbar, u: Snackbar, message: string, color: string, timeout: nat)
    ensures ShowMessage(s, message, color, timeout) == ShowMessage(u, message, color, timeout)
    ensures Hide(ShowMessage(s, message, color, timeout)) == Snackbar(false, message, color, timeout)
    ensures ShowMessage(Hide(s), message, color, timeout) == ShowMessage(s, message, color, timeout)
  {
  }
}
