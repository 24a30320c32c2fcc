/** The crosspoint grid of the matrix screen: each (destination, source) cell
    gets one of four visual states, derived from the connection state the
    backend attaches to every destination. */
module MatrixView {
  import opened Wrappers

  /** `MatrixDestination.state` as the backend reports it. */
  datatype DstState = Patched | Partial | Inactive | Overpatched | Unpatched

  /** An entry of `desired` or `others`: the source it refers to (other
      fields of the entry are not read by the client). */
  datatype PatchRef = PatchRef(src: int)

  datatype MatrixDestination = MatrixDestination(
    id: int,
    name: string,
    state: DstState,
    desired: Option<PatchRef>,
    others: Option<seq<PatchRef>>)

  datatype MatrixSource = MatrixSource(id: int, name: string)

  /** The state a crosspoint button is drawn in. */
  datatype ButtonState = Patched | DesiredInactive | Overpatched | Unpatched

  /** `dst.desired?.src === src.id`: an absent `desired` never matches. */
  predicate IsDesired(dst: MatrixDestination, src: MatrixSource) {
    dst.desired.Some? && dst.desired.value.src == src.id
  }

  /** `!!dst.others?.some(o => o.src === src.id)`: an absent `others` never matches. */
  predicate IsActiveInOthers(dst: MatrixDestination, src: MatrixSource) {
    dst.others.Some? && exists k :: 0 <= k < |dst.others.value| && dst.others.value[k].src == src.id
  }

  /** The destination's desired connection is live, fully or partly. */
  predicate IsLive(state: DstState) {
    state == DstState.Patched || state == DstState.Partial
  }

  /** getButtonState: the desired source wins over any other active source;
      it is drawn patched when the destination is (partly) live and as
      desired-but-inactive otherwise. */
  function GetButtonState(dst: MatrixDestination, src: MatrixSource): (r: ButtonState)
    ensures (r == ButtonState.Patched || r == DesiredInactive) <==> IsDesired(dst, src)
    ensures r == ButtonState.Patched ==> IsLive(dst.state)
    ensures r == ButtonState.Overpatched ==> IsActiveInOthers(dst, src)
    ensures dst.desired.None? && dst.others.None? ==> r == ButtonState.Unpatched
  {
    if IsDesired(dst, src) then
      if IsLive(dst.state) then ButtonState.Patched else DesiredInactive
    else if IsActiveInOthers(dst, src) then ButtonState.Overpatched
    else ButtonState.Unpatched
  }

  lemma DesiredAndLiveIsPatched(dst: MatrixDestination, src: MatrixSource)
    requires IsDesired(dst, src)
    requires dst.state == DstState.Patched || dst.state == DstState.Partial
    ensures GetButtonState(dst, src) == ButtonState.Patched
  {
  }

  /** Whatever `others` holds, a desired source on a destination that is not
      live is drawn desired-but-inactive. */
  lemma DesiredNotLiveIsInactive(dst: MatrixDestination, src: MatrixSource)
    requires IsDesired(dst, src)
    requires dst.state in {DstState.Inactive, DstState.Overpatched, DstState.Unpatched}
    ensures GetButtonState(dst, src) == DesiredInactive
  {
  }

  lemma ActiveElsewhereIsOverpatched(dst: MatrixDestination, src: MatrixSource, k: nat)
    requires !IsDesired(dst, src)
    requires dst.others.Some? && k < |dst.others.value| && dst.others.value[k].src == src.id
    ensures GetButtonState(dst, src) == ButtonState.Overpatched
  {
  }

  lemma NoMatchIsUnpatched(dst: MatrixDestination, src: MatrixSource)
    requires dst.desired.None? || dst.desired.value.src != src.id
    requires dst.others.None? || forall o :: o in dst.others.value ==> o.src != src.id
    ensures GetButtonState(dst, src) == ButtonState.Unpatched
  {
  }

  /** Desiredness takes priority: a desired cell is never drawn overpatched,
      even when `others` also names its source. */
  lemma DesiredNeverOverpatched(dst: MatrixDestination, src: MatrixSource)
    requires dst.desired == Some(PatchRef(src.id))
    ensures GetButtonState(dst, src) != ButtonState.Overpatched
    ensures GetButtonState(dst, src) != ButtonState.Unpatched
  {
  }

  /** One grid row: the cells of `dst` across `srcs`, in source order. */
  function Row(dst: MatrixDestination, srcs: seq<MatrixSource>): (r: seq<ButtonState>)
    ensures |r| == |srcs|
    ensures forall j :: 0 <= j < |srcs| ==> r[j] == GetButtonState(dst, srcs[j])
  {
    if srcs == [] then [] else [GetButtonState(dst, srcs[0])] + Row(dst, srcs[1..])
  }

  /** The grid body: one row per destination, in destination order. */
  function Grid(dsts: seq<MatrixDestination>, srcs: seq<MatrixSource>): (g: seq<seq<ButtonState>>)
    ensures |g| == |dsts|
    ensures forall i :: 0 <= i < |dsts| ==> |g[i]| == |srcs|
    ensures forall i, j :: 0 <= i < |dsts| && 0 <= j < |srcs| ==> g[i][j] == GetButtonState(dsts[i], srcs[j])
  {
    if dsts == [] then [] else [Row(dsts[0], srcs)] + Grid(dsts[1..], srcs)
  }

  predicate DistinctSourceIds(srcs: seq<MatrixSource>) {
    forall i, j :: 0 <= i < j < |srcs| ==> srcs[i].id != srcs[j].id
  }

  /** When the matrix lists each source once, every grid row shows at most one
      desired cell (patched or desired-but-inactive). */
  lemma AtMostOneDesiredPerRow(dsts: seq<MatrixDestination>, srcs: seq<MatrixSource>, i: nat, j1: nat, j2: nat)
    requires DistinctSourceIds(srcs)
    requires i < |dsts| && j1 < |srcs| && j2 < |srcs|
    requires Grid(dsts, srcs)[i][j1] in {ButtonState.Patched, DesiredInactive}
    requires Grid(dsts, srcs)[i][j2] in {ButtonState.Patched, DesiredInactive}
    ensures j1 == j2
  {
    assert IsDesired(dsts[i], srcs[j1]) && IsDesired(dsts[i], srcs[j2]);
  }
}
