/** The port and description handling shared, line for line, by the line
    editor (components/EditLineModal.tsx) and the source editor
    (components/EditSourceModal.tsx). `selectedPorts` maps a role to the port
    id picked for it; 0 means "not assigned". */
module LineForm {
  import opened Wrappers
  import opened JsText
  import opened Forms

  /** `portRoles`: the roles a line has a port picker for. */
  const PortRoles: seq<string> := ["left", "right"]

  /** A value of `selectedPorts`: a port id, or NaN when `parseInt` found no digits. */
  datatype PortValue = PortId(id: int) | NaN

  /** What the port picker hands over: a string on Android, a number on iOS. */
  datatype PickerValue = Text(s: string) | Number(n: int)

  /** The body of `PUT /{src|dst}` and `PUT /{src|dst}/{id}`; an absent
      description is left out of the JSON. */
  datatype LinePayload = LinePayload(name: string, description: Option<string>, ports: map<string, PortValue>)

  /** `selectedPorts[role] && selectedPorts[role] !== 0`: NaN and 0 are falsy. */
  predicate IsAssigned(v: PortValue) {
    v.PortId? && v.id != 0
  }

  /** The ports worth saving: the roles with an assigned port, values unchanged. */
  function AssignedPorts(selected: map<string, PortValue>): (saved: map<string, PortValue>)
    ensures forall role :: role in saved <==> role in selected && IsAssigned(selected[role])
    ensures forall role :: role in saved ==> saved[role] == selected[role]
  {
    map role | role in selected && IsAssigned(selected[role]) :: selected[role]
  }

  predicate IsSubMap(m: map<string, PortValue>, n: map<string, PortValue>) {
    forall role :: role in m ==> role in n && m[role] == n[role]
  }

  /** The saved ports are a sub-map of the selection, and only assigned ports survive. */
  lemma AssignedPortsSubMap(selected: map<string, PortValue>)
    ensures IsSubMap(AssignedPorts(selected), selected)
    ensures forall role :: role in AssignedPorts(selected) ==> IsAssigned(AssignedPorts(selected)[role])
  {
  }

  /** Filtering a second time changes nothing. */
  lemma AssignedPortsIdempotent(selected: map<string, PortValue>)
    ensures AssignedPorts(AssignedPorts(selected)) == AssignedPorts(selected)
  {
  }

  /** The `for...in` loop of handleSubmit that copies every assigned role
      into `portsToSave`. */
  method CollectPortsToSave(selected: map<string, PortValue>) returns (saved: map<string, PortValue>)
    ensures forall role :: role in saved <==> role in selected && IsAssigned(selected[role])
    ensures forall role :: role in saved ==> saved[role] == selected[role]
    ensures saved == AssignedPorts(selected)
  {
    saved := map[];
    var pending := selected.Keys;
    while pending != {}
      invariant pending <= selected.Keys
      invariant forall role :: role in saved <==> role in selected && role !in pending && IsAssigned(selected[role])
      invariant forall role :: role in saved ==> saved[role] == selected[role]
      decreases pending
    {
      var role :| role in pending;
      if IsAssigned(selected[role]) {
        saved := saved[role := selected[role]];
      }
      pending := pending - {role};
    }
  }

  /** The `forEach` over `portRoles` that starts a new line with every role at 0. */
  method InitialPorts() returns (ports: map<string, PortValue>)
    ensures ports.Keys == {"left", "right"}
    ensures forall role :: role in ports ==> ports[role] == PortId(0)
  {
    ports := map[];
    for i := 0 to |PortRoles|
      invariant ports.Keys == set k | 0 <= k < i :: PortRoles[k]
      invariant forall role :: role in ports ==> ports[role] == PortId(0)
    {
      ports := ports[PortRoles[i] := PortId(0)];
    }
    assert ports.Keys == set k | 0 <= k < 2 :: PortRoles[k];
    assert PortRoles[0] in ports.Keys && PortRoles[1] in ports.Keys;
  }

  /** A new line saved without picking a port sends no port at all. */
  lemma NewLineSavesNoPorts(ports: map<string, PortValue>)
    requires forall role :: role in ports ==> ports[role] == PortId(0)
    ensures AssignedPorts(ports) == map[]
  {
  }

  /** `!!portId` for a string or a number. */
  predicate IsFalsy(v: PickerValue) {
    v == Text("") || v == Number(0)
  }

  /** `String(portId)`. */
  function PickerText(v: PickerValue): string {
    match v
    case Text(s) => s
    case Number(n) => DecimalString(n)
  }

  /** `portId ? parseInt(String(portId), 10) : 0`. */
  function ParsePortId(v: PickerValue): (p: PortValue)
    ensures IsFalsy(v) ==> p == PortId(0)
    ensures forall id :: v == Text(DecimalString(id)) || v == Number(id) ==> p == PortId(id)
    ensures v.Text? && v.s != "" && ParseInt(v.s).None? ==> p == NaN
  {
    ParseEveryDecimalString();
    if IsFalsy(v) then PortId(0)
    else match ParseInt(PickerText(v))
      case None => NaN
      case Some(n) => PortId(n)
  }

  /** handlePortChange: `{ ...prev, [role]: id }`. Only `role` changes. */
  function PortChange(selected: map<string, PortValue>, role: string, portId: PickerValue): (r: map<string, PortValue>)
    ensures r.Keys == selected.Keys + {role}
    ensures forall other :: other in selected && other != role ==> r[other] == selected[other]
    ensures IsFalsy(portId) ==> r[role] == PortId(0) && role !in AssignedPorts(r)
  {
    selected[role := ParsePortId(portId)]
  }

  /** Picking a port, whose picker value is its id as text (or as a number on
      iOS), stores exactly that id for the role. */
  lemma PickPortStoresId(selected: map<string, PortValue>, role: string, id: int)
    ensures PortChange(selected, role, Text(DecimalString(id)))[role] == PortId(id)
    ensures PortChange(selected, role, Number(id))[role] == PortId(id)
  {
    ParseDecimalString(id);
    assert DecimalString(id) != "";
  }

  /** `description.trim() || undefined`. */
  function OptionalDescription(description: string): (r: Option<string>)
    ensures r.None? <==> AllWhitespace(description)
    ensures r.Some? ==> r.value == Trim(description) && r.value != ""
  {
    BlankIffAllWhitespace(description);
    if IsBlank(description) then None else Some(Trim(description))
  }

  /** The save handler both editors share: a blank name raises the editor's
      validation `message` and nothing is saved; otherwise the payload carries
      the name as typed, the trimmed description (left out when empty) and
      only the assigned ports. */
  method SubmitLine(message: string, name: string, description: string, selectedPorts: map<string, PortValue>)
    returns (r: Submission<LinePayload>)
    ensures r.Rejected? <==> AllWhitespace(name)
    ensures r.Rejected? ==> r.message == message
    ensures r.Submitted? ==> r.payload.name == name && r.payload.description == OptionalDescription(description)
    ensures r.Submitted? ==> forall role :: role in r.payload.ports <==> role in selectedPorts && IsAssigned(selectedPorts[role])
    ensures r.Submitted? ==> IsSubMap(r.payload.ports, selectedPorts)
  {
    BlankIffAllWhitespace(name);
    if IsBlank(name) {
      return Rejected(message);
    }
    var portsToSave := CollectPortsToSave(selectedPorts);
    r := Submitted(LinePayload(name, OptionalDescription(description), portsToSave));
  }
}
