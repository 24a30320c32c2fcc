/** The web stand-in for `Alert.alert` (components/Alerty.tsx): with no
    options it shows a plain alert; with options it asks a yes/no question
    and runs the callback of at most one option. The user's answer is an
    input; the option whose `onPress` runs is named by its index. */
module Alerty {
  import opened Wrappers

  /** One button of the alert. Its `onPress` is identified by the option's
      position; `hasOnPress` says whether the caller supplied one at all. */
  datatype AlertOption = AlertOption(text: string, style: Option<string>, hasOnPress: bool)

  /** The browser dialog shown: `window.alert` or `window.confirm`. */
  datatype Dialog = PlainAlert(message: string) | ConfirmBox(message: string)

  /** What happens after the dialog: no callback, the `onPress` of the option
      at `index` runs, or calling the missing `onPress` of that option throws
      a `TypeError`. */
  datatype Call = NoCall | Runs(index: nat) | TypeError(index: nat)

  /** What one call does: the dialog it shows and the callback it makes. */
  datatype AlertOutcome = AlertOutcome(dialog: Dialog, call: Call)

  /** `.filter(Boolean)` on strings: keep the non-empty parts. */
  function NonEmptyParts(parts: seq<string>): (r: seq<string>)
    ensures forall x :: x in r <==> x in parts && x != ""
    ensures |r| <= |parts|
  {
    if parts == [] then []
    else
      var rest := NonEmptyParts(parts[1..]);
      assert forall x :: x in parts <==> x == parts[0] || x in parts[1..];
      if parts[0] == "" then rest else [parts[0]] + rest
  }

  /** The filter works piecewise, so the kept parts stay in their order. */
  lemma {:induction false} NonEmptyPartsAppend(a: seq<string>, b: seq<string>)
    ensures NonEmptyParts(a + b) == NonEmptyParts(a) + NonEmptyParts(b)
  {
    if a == [] {
      assert a + b == b;
    } else {
      assert (a + b)[0] == a[0] && (a + b)[1..] == a[1..] + b;
      NonEmptyPartsAppend(a[1..], b);
    }
  }

  /** Total number of characters in `parts`. */
  function TotalLength(parts: seq<string>): nat {
    if parts == [] then 0 else |parts[0]| + TotalLength(parts[1..])
  }

  /** `.join('\n')`: the parts in order, one line break between neighbours. */
  function JoinLines(parts: seq<string>): (r: string)
    ensures parts == [] ==> r == ""
    ensures parts != [] ==> |r| == TotalLength(parts) + |parts| - 1
    ensures parts != [] ==> |parts[0]| <= |r| && r[..|parts[0]|] == parts[0]
    ensures parts != [] ==> |parts[|parts| - 1]| <= |r| && r[|r| - |parts[|parts| - 1]|..] == parts[|parts| - 1]
  {
    if parts == [] then ""
    else if |parts| == 1 then parts[0]
    else
      var rest := JoinLines(parts[1..]);
      var r := parts[0] + "\n" + rest;
      assert r[..|parts[0]|] == parts[0];
      var last := parts[|parts| - 1];
      assert last == parts[1..][|parts[1..]| - 1];
      assert r[|r| - |rest|..] == rest;
      assert r[|r| - |last|..] == rest[|rest| - |last|..];
      r
  }

  /** Unfolds `JoinLines` once: the first part, a newline, the rest joined. */
  lemma JoinLinesCons(parts: seq<string>)
    requires |parts| > 1
    ensures JoinLines(parts) == parts[0] + "\n" + JoinLines(parts[1..])
  {
  }

  /** Line breaks regroup freely: `p\nx` then `\ny` is `p` then `\nx\ny`. */
  lemma NewlineRegroup(p: string, x: string, y: string)
    ensures p + "\n" + (x + "\n" + y) == (p + "\n" + x) + "\n" + y
  {
  }

  /** Joining two non-empty runs of parts puts one line break between them:
      every separator `join` inserts is a newline. */
  lemma {:induction false} JoinLinesAppend(a: seq<string>, b: seq<string>)
    requires a != [] && b != []
    ensures JoinLines(a + b) == JoinLines(a) + "\n" + JoinLines(b)
  {
    var ab := a + b;
    assert ab[0] == a[0] && |ab| > 1;
    JoinLinesCons(ab);
    if |a| == 1 {
      assert ab[1..] == b;
    } else {
      assert ab[1..] == a[1..] + b;
      JoinLinesAppend(a[1..], b);
      JoinLinesCons(a);
      NewlineRegroup(a[0], JoinLines(a[1..]), JoinLines(b));
    }
  }

  /** `[title, description].filter(Boolean).join('\n')`: the title and the
      description on separate lines, an empty one dropped together with its
      line break. */
  function Message(title: string, description: string): (m: string)
    ensures title != "" && description != "" ==> m == title + "\n" + description
    ensures title == "" ==> m == description
    ensures description == "" ==> m == title
  {
    var parts := [title, description];
    assert parts[1..] == [description];
    assert [description][1..] == [];
    var tail := if description == "" then [] else [description];
    assert NonEmptyParts([description]) == tail;
    if title == "" then
      assert NonEmptyParts(parts) == tail;
      JoinLines(NonEmptyParts(parts))
    else
      assert NonEmptyParts(parts) == [title] + tail;
      assert ([title] + tail)[1..] == tail;
      assert JoinLines([title] + tail) == if tail == [] then title else title + "\n" + JoinLines(tail);
      JoinLines(NonEmptyParts(parts))
  }

  predicate IsCancel(o: AlertOption) {
    o.style == Some("cancel")
  }

  /** `options.find(({ style }) => (style === 'cancel') === cancel)`, as an index. */
  function FirstOption(options: seq<AlertOption>, cancel: bool): (r: Option<nat>)
    ensures r.Some? ==> r.value < |options| && IsCancel(options[r.value]) == cancel
    ensures r.Some? ==> forall j :: 0 <= j < r.value ==> IsCancel(options[j]) != cancel
    ensures r.None? ==> forall j :: 0 <= j < |options| ==> IsCancel(options[j]) != cancel
  {
    if options == [] then None
    else if IsCancel(options[0]) == cancel then Some(0)
    else match FirstOption(options[1..], cancel)
      case None => None
      case Some(k) => Some(k + 1)
  }

  /** `option && option.onPress()` as written: the found option's `onPress`
      is called whether or not the caller gave one. */
  function CallAsWritten(options: seq<AlertOption>, found: Option<nat>): (c: Call)
    requires found.Some? ==> found.value < |options|
    ensures found.None? <==> c == NoCall
    ensures found.Some? && options[found.value].hasOnPress ==> c == Runs(found.value)
    ensures found.Some? && !options[found.value].hasOnPress ==> c == TypeError(found.value)
  {
    match found
    case None => NoCall
    case Some(k) => if options[k].hasOnPress then Runs(k) else TypeError(k)
  }

  /** alertPolyfill as written, given the user's answer to the confirm box. */
  function AlertPolyfillAsWritten(title: string, description: string, options: Option<seq<AlertOption>>, confirmed: bool)
    : (r: AlertOutcome)
    ensures options.None? ==> r == AlertOutcome(PlainAlert(Message(title, description)), NoCall)
    ensures options.Some? ==> r.dialog == ConfirmBox(Message(title, description))
    ensures options.Some? ==> r.call == CallAsWritten(options.value, FirstOption(options.value, !confirmed))
  {
    match options
    case None => AlertOutcome(PlainAlert(Message(title, description)), NoCall)
    case Some(opts) => AlertOutcome(ConfirmBox(Message(title, description)), CallAsWritten(opts, FirstOption(opts, !confirmed)))
  }

  /** The found option's `onPress` runs when it has one; an option without
      one closes the dialog with no callback, as `Alert.alert` does. */
  function CallIfPresent(options: seq<AlertOption>, found: Option<nat>): (c: Call)
    requires found.Some? ==> found.value < |options|
    ensures !c.TypeError?
    ensures c.Runs? <==> found.Some? && options[found.value].hasOnPress
    ensures c.Runs? ==> c.index == found.value
  {
    match found
    case None => NoCall
    case Some(k) => if options[k].hasOnPress then Runs(k) else NoCall
  }

  /** alertPolyfill with the callback guarded, given the user's answer to the
      confirm box: it shows the same dialog and never throws. */
  function AlertPolyfill(title: string, description: string, options: Option<seq<AlertOption>>, confirmed: bool)
    : (r: AlertOutcome)
    ensures options.None? ==> r == AlertOutcome(PlainAlert(Message(title, description)), NoCall)
    ensures options.Some? ==> r.dialog == ConfirmBox(Message(title, description))
    ensures !r.call.TypeError?
    ensures r.call.Runs? ==> options.Some? && r.call.index < |options.value| && options.value[r.call.index].hasOnPress
  {
    match options
    case None => AlertOutcome(PlainAlert(Message(title, description)), NoCall)
    case Some(opts) => AlertOutcome(ConfirmBox(Message(title, description)), CallIfPresent(opts, FirstOption(opts, !confirmed)))
  }

  /** When every option carries an `onPress`, as the line manager's delete
      confirm does, the code as written and the guarded version agree. */
  lemma AgreesWhenEveryOptionHasOnPress(title: string, description: string, options: seq<AlertOption>, confirmed: bool)
    requires forall j :: 0 <= j < |options| ==> options[j].hasOnPress
    ensures AlertPolyfillAsWritten(title, description, Some(options), confirmed)
            == AlertPolyfill(title, description, Some(options), confirmed)
  {
    var found := FirstOption(options, !confirmed);
    if found.Some? {
      assert options[found.value].hasOnPress;
    }
  }

  /** The code as written throws exactly when the option the answer picks
      has no `onPress`; otherwise it does what the guarded version does. */
  lemma AsWrittenThrowsOnlyWithoutOnPress(title: string, description: string, options: seq<AlertOption>, confirmed: bool)
    ensures AlertPolyfillAsWritten(title, description, Some(options), confirmed).call.TypeError?
            <==> (var found := FirstOption(options, !confirmed); found.Some? && !options[found.value].hasOnPress)
    ensures !AlertPolyfillAsWritten(title, description, Some(options), confirmed).call.TypeError? ==>
            AlertPolyfillAsWritten(title, description, Some(options), confirmed)
            == AlertPolyfill(title, description, Some(options), confirmed)
  {
  }

  /** The options of the matrix editor's delete confirm: a cancel option with
      no `onPress`, then the destructive "Delete". */
  const MatrixDeleteOptions: seq<AlertOption> :=
    [AlertOption("Cancel", Some("cancel"), false), AlertOption("Delete", Some("destructive"), true)]

  /** Answering "no" to the matrix editor's delete confirm: as written the
      missing `onPress` of "Cancel" is called and throws; guarded, the dialog
      just closes. */
  lemma DeclineMatrixDeleteThrows()
    ensures AlertPolyfillAsWritten("Confirm Delete", "Are you sure you want to delete this matrix?", Some(MatrixDeleteOptions), false).call
            == TypeError(0)
    ensures AlertPolyfill("Confirm Delete", "Are you sure you want to delete this matrix?", Some(MatrixDeleteOptions), false).call
            == NoCall
  {
    assert FirstOption(MatrixDeleteOptions, true) == Some(0);
  }

  /** On "yes" the first option that is not a cancel option is the one
      whose `onPress` runs, if it has one. */
  lemma ConfirmRunsFirstNonCancel(title: string, description: string, options: seq<AlertOption>, k: nat)
    requires k < |options| && !IsCancel(options[k])
    requires forall j :: 0 <= j < k ==> IsCancel(options[j])
    ensures AlertPolyfill(title, description, Some(options), true).call
            == if options[k].hasOnPress then Runs(k) else NoCall
  {
    var r := FirstOption(options, false);
    assert r.Some? by {
      assert !(forall j :: 0 <= j < |options| ==> IsCancel(options[j]) != false);
    }
  }

  /** On "no" the first cancel option is the one whose `onPress` runs, if it has one. */
  lemma DeclineRunsFirstCancel(title: string, description: string, options: seq<AlertOption>, k: nat)
    requires k < |options| && IsCancel(options[k])
    requires forall j :: 0 <= j < k ==> !IsCancel(options[j])
    ensures AlertPolyfill(title, description, Some(options), false).call
            == if options[k].hasOnPress then Runs(k) else NoCall
  {
    var r := FirstOption(options, true);
    assert r.Some? by {
      assert !(forall j :: 0 <= j < |options| ==> IsCancel(options[j]) != true);
    }
  }

  /** No callback runs when no option fits the answer; an empty option list
      still shows a confirm box but runs nothing. */
  lemma NoMatchRunsNothing(title: string, description: string, options: seq<AlertOption>, confirmed: bool)
    requires forall j :: 0 <= j < |options| ==> IsCancel(options[j]) == confirmed
    ensures AlertPolyfill(title, description, Some(options), confirmed).call == NoCall
    ensures AlertPolyfill(title, description, Some([]), confirmed)
            == AlertOutcome(ConfirmBox(Message(title, description)), NoCall)
  {
  }
}
