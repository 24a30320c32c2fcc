/** What a form's submit handler does: either it shows a validation alert and
    does not call `onSave`, or it calls `onSave` with a payload. */
module Forms {

  datatype Submission<+P> = Rejected(message: string) | Submitted(payload: P)
}
