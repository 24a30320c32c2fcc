/** The line editor's save handler (components/EditLineModal.tsx). */
module EditLineModal {
  import opened JsText
  import opened Forms
  import opened LineForm

  /** handleSubmit: the shared save handler with this editor's message. */
  method HandleSubmit(name: string, description: string, selectedPorts: map<string, PortValue>)
    returns (r: Submission<LinePayload>)
    ensures r.Rejected? <==> AllWhitespace(name)
    ensures r.Rejected? ==> r.message == "Line name cannot be empty."
    ensures r.Submitted? ==> r.payload.name == name && r.payload.description == OptionalDescription(description)
    ensures r.Submitted? ==> forall role :: role in r.payload.ports <==> role in selectedPorts && IsAssigned(selectedPorts[role])
    ensures r.Submitted? ==> IsSubMap(r.payload.ports, selectedPorts)
  {
    r := SubmitLine("Line name cannot be empty.", name, description, selectedPorts);
  }
}
