/**
 * The pure specification of the message-substitution pipeline of
 * formula-filter: the walk over the split message that renders formula
 * segments and replaces them by freshly numbered smiley shortcuts, the
 * outcome of the send hook, the display hook's use of the staging slot,
 * the error note and the purge of created smileys.
 *
 * The external renderer (a child process whose exit code is returned) and
 * the smiley store's `purple_smiley_new_from_file` (which yields NULL on
 * failure) are oracles: `render` maps a formula to an exit code and
 * `create` maps a shortcut to whether the smiley could be created.
 */
module Pipeline {
  import opened Wrappers
  import opened Text
  import opened Decimal

  /** The staging slot `new_message`: NULL, the joined text, or the `error_message` sentinel. */
  datatype Pending = Empty | Staged(text: string) | ErrorMark

  /** Every shortcut the pipeline creates starts with this prefix. */
  const ShortcutPrefix: string := "ff-"

  /** The shortcut for counter value id: the prefix, then id in decimal. */
  function Shortcut(id: nat): string
  {
    ShortcutPrefix + NatToDecimal(id)
  }

  lemma ShortcutPrefixed(id: nat)
    ensures HasPrefix(Shortcut(id), ShortcutPrefix)
  {
  }

  /** Different counter values give different shortcuts. */
  lemma ShortcutInjective(m: nat, n: nat)
    ensures Shortcut(m) == Shortcut(n) ==> m == n
  {
    if Shortcut(m) == Shortcut(n) {
      assert Shortcut(m)[|ShortcutPrefix|..] == NatToDecimal(m);
      assert Shortcut(n)[|ShortcutPrefix|..] == NatToDecimal(n);
      NatToDecimalInjective(m, n);
    }
  }

  /** A formula renders with exit code 0 and its smiley, numbered id, can be created. */
  predicate Accepted(formula: string, id: nat, render: string -> int, create: string -> bool)
  {
    render(formula) == 0 && create(Shortcut(id))
  }

  /**
   * The text `show_error_message` posts for a failed formula: the exit code
   * is mentioned only when it is non-zero (zero stands for a smiley that
   * could not be created).
   */
  function ErrorText(formula: string, ret: int): (r: string)
    ensures HasPrefix(r, "Error creating smiley from '" + formula + "'")
    ensures ret == 0 <==> r == "Error creating smiley from '" + formula + "'"
  {
    if ret != 0 then
      "Error creating smiley from '" + formula + "', return code = " + IntToDecimal(ret)
    else
      "Error creating smiley from '" + formula + "'"
  }

  /** The note tells apart every exit code for the same formula. */
  lemma ErrorTextCode(formula: string, r1: int, r2: int)
    ensures ErrorText(formula, r1) == ErrorText(formula, r2) ==> r1 == r2
  {
    var head := "Error creating smiley from '" + formula + "', return code = ";
    if ErrorText(formula, r1) == ErrorText(formula, r2) && r1 != 0 && r2 != 0 {
      assert ErrorText(formula, r1)[|head|..] == IntToDecimal(r1);
      assert ErrorText(formula, r2)[|head|..] == IntToDecimal(r2);
      IntToDecimalInjective(r1, r2);
    }
  }

  /** The formula the walk stopped at and the code `show_error_message` gets for it. */
  datatype Failure = Failure(formula: string, code: int)

  /** The formula segments: those at odd positions, in order. */
  function Formulas(v: seq<string>): seq<string>
  {
    seq(|v| / 2, j requires 0 <= j < |v| / 2 => v[2 * j + 1])
  }

  /** Formula j is the segment at position 2j + 1. */
  lemma FormulaAt(v: seq<string>, j: nat)
    requires j < |v| / 2
    ensures |Formulas(v)| == |v| / 2 && Formulas(v)[j] == v[2 * j + 1]
  {
  }

  /** Formula k is the segment at position 2k + 1, for every split. */
  lemma FormulasIndexed()
    ensures forall v: seq<string> :: |Formulas(v)| == |v| / 2
    ensures forall v: seq<string>, j :: 0 <= j < |Formulas(v)| ==> Formulas(v)[j] == v[2 * j + 1]
  {
  }

  /** The segments with the k-th formula replaced by the shortcut numbered id + k. */
  function Substituted(v: seq<string>, id: nat): seq<string>
  {
    seq(|v|, j requires 0 <= j < |v| => if j % 2 == 1 then Shortcut(id + j / 2) else v[j])
  }

  /** The shortcuts numbered id, id + 1, ..., id + count - 1. */
  function Shortcuts(id: nat, count: nat): seq<string>
  {
    seq(count, t requires 0 <= t < count => Shortcut(id + t))
  }

  /** Shortcut t of a run is the one numbered id + t, for every run. */
  lemma ShortcutsIndexed()
    ensures forall id: nat, count: nat :: |Shortcuts(id, count)| == count
    ensures forall id: nat, count: nat, t :: 0 <= t < count ==> Shortcuts(id, count)[t] == Shortcut(id + t)
  {
  }

  /**
   * The position of the first formula that is not accepted when the k-th
   * formula gets the shortcut numbered id + k, or None when all are.
   */
  function FirstRejected(fs: seq<string>, id: nat, render: string -> int, create: string -> bool): (r: Option<nat>)
    ensures r.Some? ==> r.value < |fs| && !Accepted(fs[r.value], id + r.value, render, create)
    ensures r.Some? ==> forall t :: 0 <= t < r.value ==> Accepted(fs[t], id + t, render, create)
    ensures r.None? <==> forall t :: 0 <= t < |fs| ==> Accepted(fs[t], id + t, render, create)
    decreases |fs|
  {
    if fs == [] then None
    else if !Accepted(fs[0], id, render, create) then Some(0)
    else
      match FirstRejected(fs[1..], id + 1, render, create)
      case None => None
      case Some(k) => Some(k + 1)
  }

  /** Where the walk over the split message stops. */
  datatype WalkEnd = WalkEnd(
    failure: Option<Failure>,  // None when every formula was accepted
    calls: seq<string>,        // the formulas handed to the renderer, in order
    done: nat,                 // how many formulas were replaced by shortcuts
    next: nat,                 // the shortcut counter afterwards
    segments: seq<string>)     // the split message with those formulas replaced

  /**
   * The do/while of `sending_im_msg_cb` over the segments v, the counter
   * starting at id: formulas are rendered in order, the k-th getting the
   * shortcut numbered id + k, up to the first one not accepted. That one
   * has also used up a number when it rendered with exit code 0.
   */
  function Walk(v: seq<string>, id: nat, render: string -> int, create: string -> bool): WalkEnd
  {
    var fs := Formulas(v);
    match FirstRejected(fs, id, render, create)
    case None => WalkEnd(None, fs, |fs|, id + |fs|, Partial(v, id, |fs|))
    case Some(k) =>
      var code := render(fs[k]);
      WalkEnd(Some(Failure(fs[k], code)), fs[..k + 1], k, if code == 0 then id + k + 1 else id + k, Partial(v, id, k))
  }

  /** The walk over formulas that are all accepted replaces every one of them. */
  lemma WalkCompletes(v: seq<string>, id: nat, render: string -> int, create: string -> bool)
    requires forall t :: 0 <= t < |Formulas(v)| ==> Accepted(Formulas(v)[t], id + t, render, create)
    ensures var fs := Formulas(v);
      Walk(v, id, render, create) == WalkEnd(None, fs, |fs|, id + |fs|, Partial(v, id, |fs|))
  {
  }

  /** The walk stops at formula k when the formulas before it are accepted and it is not. */
  lemma WalkStops(v: seq<string>, id: nat, render: string -> int, create: string -> bool, k: nat)
    requires k < |Formulas(v)|
    requires forall t :: 0 <= t < k ==> Accepted(Formulas(v)[t], id + t, render, create)
    requires !Accepted(Formulas(v)[k], id + k, render, create)
    ensures var fs := Formulas(v);
      var code := render(fs[k]);
      Walk(v, id, render, create)
        == WalkEnd(Some(Failure(fs[k], code)), fs[..k + 1], k, if code == 0 then id + k + 1 else id + k, Partial(v, id, k))
  {
    FirstRejectedAt(Formulas(v), id, render, create, k);
  }

  /** What the send hook leaves behind. */
  datatype Outcome = Outcome(
    message: Option<string>,  // `*message` afterwards; None is NULL (nothing is sent)
    pending: Pending,         // the staging slot afterwards
    nextId: nat,              // the shortcut counter afterwards
    calls: seq<string>,       // the formulas handed to the renderer, in order
    created: seq<string>,     // the shortcuts of the smileys created, in order
    note: Option<string>)     // the error text shown to the sender, if any

  /**
   * `sending_im_msg_cb`. A message without a delimiter is left alone.
   * Otherwise it is split and walked:
   * - if every formula is accepted, the message and the slot hold the
   *   segments joined with no separator, each formula replaced by its
   *   shortcut;
   * - if formula k is not, the smileys 0..k-1 stay created, the message
   *   becomes NULL, the slot holds the error sentinel and the note names
   *   formula k with its exit code.
   */
  function Sent(pending: Pending, id: nat, message: string, render: string -> int, create: string -> bool): Outcome
  {
    if FindDelim(message).None? then
      Outcome(Some(message), pending, id, [], [], None)
    else
      var w := Walk(Split(message), id, render, create);
      match w.failure
      case None => Outcome(Some(Join(w.segments)), Staged(Join(w.segments)), w.next, w.calls, Shortcuts(id, w.done), None)
      case Some(f) => Outcome(None, ErrorMark, w.next, w.calls, Shortcuts(id, w.done), Some(ErrorText(f.formula, f.code)))
  }

  /**
   * The segments after the walk has replaced the first done formulas by
   * their shortcuts, one at a time and in order.
   */
  function Partial(v: seq<string>, id: nat, done: nat): (r: seq<string>)
    requires 2 * done <= |v|
    ensures |r| == |v|
    decreases done
  {
    if done == 0 then v else Partial(v, id, done - 1)[2 * done - 1 := Shortcut(id + done - 1)]
  }

  /** Replacing the next formula extends the partial substitution by one. */
  lemma PartialStep(v: seq<string>, id: nat, done: nat)
    requires 2 * done + 1 < |v|
    ensures Partial(v, id, done + 1) == Partial(v, id, done)[2 * done + 1 := Shortcut(id + done)]
  {
  }

  /** After done replacements, the formulas before position 2 * done are shortcuts and the rest is untouched. */
  lemma {:induction false} PartialAt(v: seq<string>, id: nat, done: nat, q: nat)
    requires 2 * done <= |v| && q < |v|
    ensures Partial(v, id, done)[q] == if q % 2 == 1 && q < 2 * done then Shortcut(id + q / 2) else v[q]
  {
    if done > 0 {
      PartialAt(v, id, done - 1, q);
      if q == 2 * done - 1 {
        assert q / 2 == done - 1;
      }
    }
  }

  /** Once every formula has been replaced, the walk's segments are the substituted ones. */
  lemma PartialComplete(v: seq<string>, id: nat, done: nat)
    requires done == |v| / 2
    ensures Partial(v, id, done) == Substituted(v, id)
  {
    assert 2 * done <= |v|;
    forall q | 0 <= q < |v|
      ensures Partial(v, id, done)[q] == Substituted(v, id)[q]
    {
      PartialAt(v, id, done, q);
      if q % 2 == 1 {
        assert q / 2 < |v| / 2;
      }
    }
  }

  /** The outcome of a send in which every formula is accepted. */
  lemma SentAllAccepted(pending: Pending, id: nat, message: string, render: string -> int, create: string -> bool)
    requires FindDelim(message).Some?
    requires forall t :: 0 <= t < |Formulas(Split(message))| ==> Accepted(Formulas(Split(message))[t], id + t, render, create)
    ensures var v := Split(message);
      var text := Join(Substituted(v, id));
      Sent(pending, id, message, render, create)
        == Outcome(Some(text), Staged(text), id + |Formulas(v)|, Formulas(v), Shortcuts(id, |Formulas(v)|), None)
  {
    var v := Split(message);
    PartialComplete(v, id, |Formulas(v)|);
  }

  /** One more shortcut extends the run of consecutive shortcuts by one. */
  lemma ShortcutsStep(id: nat, count: nat)
    ensures Shortcuts(id, count) + [Shortcut(id + count)] == Shortcuts(id, count + 1)
  {
  }

  /** The accepted prefix of the formulas grows by one accepted formula. */
  lemma AcceptedExtend(fs: seq<string>, id: nat, done: nat, render: string -> int, create: string -> bool)
    requires done < |fs|
    requires forall t :: 0 <= t < done ==> Accepted(fs[t], id + t, render, create)
    requires render(fs[done]) == 0 && create(Shortcut(id + done))
    ensures forall t :: 0 <= t < done + 1 ==> Accepted(fs[t], id + t, render, create)
  {
  }

  /**
   * One accepted pass of the do/while: formula done of v renders with code 0
   * and its smiley is created, so the accepted prefix, the run of created
   * shortcuts and the in-place replacements each grow by one.
   */
  lemma ReplacedStep(v: seq<string>, id: nat, done: nat, render: string -> int, create: string -> bool,
                     before: seq<string>, after: seq<string>)
    requires 2 * done + 1 < |v|
    requires forall t :: 0 <= t < done ==> Accepted(Formulas(v)[t], id + t, render, create)
    requires render(v[2 * done + 1]) == 0 && create(Shortcut(id + done))
    requires before == Partial(v, id, done) && after == before[2 * done + 1 := Shortcut(id + done)]
    ensures forall t :: 0 <= t < done + 1 ==> Accepted(Formulas(v)[t], id + t, render, create)
    ensures Shortcuts(id, done) + [Shortcut(id + done)] == Shortcuts(id, done + 1)
    ensures after == Partial(v, id, done + 1)
  {
    FormulaAt(v, done);
    AcceptedExtend(Formulas(v), id, done, render, create);
    ShortcutsStep(id, done);
    PartialStep(v, id, done);
  }

  /** The first formula not accepted is the one after all the accepted ones. */
  lemma FirstRejectedAt(fs: seq<string>, id: nat, render: string -> int, create: string -> bool, k: nat)
    requires k < |fs|
    requires forall t :: 0 <= t < k ==> Accepted(fs[t], id + t, render, create)
    requires !Accepted(fs[k], id + k, render, create)
    ensures FirstRejected(fs, id, render, create) == Some(k)
  {
  }

  /** The outcome of a send whose formula k is the first one not accepted. */
  lemma SentRejectedAt(pending: Pending, id: nat, message: string, render: string -> int, create: string -> bool, k: nat)
    requires FindDelim(message).Some?
    requires k < |Formulas(Split(message))|
    requires forall t :: 0 <= t < k ==> Accepted(Formulas(Split(message))[t], id + t, render, create)
    requires !Accepted(Formulas(Split(message))[k], id + k, render, create)
    ensures var fs := Formulas(Split(message));
      var code := render(fs[k]);
      Sent(pending, id, message, render, create)
        == Outcome(None, ErrorMark, if code == 0 then id + k + 1 else id + k,
                   fs[..k + 1], Shortcuts(id, k), Some(ErrorText(fs[k], code)))
  {
    FirstRejectedAt(Formulas(Split(message)), id, render, create, k);
  }

  /** A message without a delimiter: nothing changes and nothing is rendered. */
  lemma SentNoDelim(pending: Pending, id: nat, message: string, render: string -> int, create: string -> bool)
    requires FindDelim(message).None?
    ensures Sent(pending, id, message, render, create) == Outcome(Some(message), pending, id, [], [], None)
  {
  }

  /**
   * A message with a delimiter has a first formula segment, and the
   * renderer sees a non-empty prefix of the formula segments (those at odd
   * positions) in order, never a literal segment; every formula it sees
   * before the last was accepted.
   */
  lemma SentCallsFormulas(pending: Pending, id: nat, message: string, render: string -> int, create: string -> bool)
    requires FindDelim(message).Some?
    ensures var o := Sent(pending, id, message, render, create);
      var v := Split(message);
      && |v| >= 2
      && 1 <= |o.calls| <= |Formulas(v)|
      && (forall t :: 0 <= t < |o.calls| ==> o.calls[t] == v[2 * t + 1])
      && forall t :: 0 <= t < |o.calls| - 1 ==> Accepted(o.calls[t], id + t, render, create)
  {
    FormulasIndexed();
    ShortcutsIndexed();
    SplitCount(message);
  }

  /** The message is dropped exactly when some formula is not accepted. */
  lemma SentDropped(pending: Pending, id: nat, message: string, render: string -> int, create: string -> bool)
    requires FindDelim(message).Some?
    ensures var fs := Formulas(Split(message));
      (Sent(pending, id, message, render, create).message.None? <==>
       exists t :: 0 <= t < |fs| && !Accepted(fs[t], id + t, render, create))
  {
  }

  /**
   * Fail-fast: when the message is dropped, the last formula rendered is
   * the first one not accepted, the slot holds the error sentinel, the note
   * names that formula with its exit code (0 when it was the smiley
   * creation that failed), and only the smileys of the formulas before it
   * were created.
   */
  lemma SentFailFast(pending: Pending, id: nat, message: string, render: string -> int, create: string -> bool)
    requires FindDelim(message).Some?
    ensures var o := Sent(pending, id, message, render, create);
      var n := |o.calls|;
      o.message.None? ==>
        && n >= 1
        && !Accepted(o.calls[n - 1], id + n - 1, render, create)
        && (forall t :: 0 <= t < n - 1 ==> Accepted(o.calls[t], id + t, render, create))
        && o.pending == ErrorMark
        && |o.created| == n - 1
        && o.note == Some(ErrorText(o.calls[n - 1], render(o.calls[n - 1])))
  {
    var fs := Formulas(Split(message));
    match FirstRejected(fs, id, render, create)
    case None =>
    case Some(k) =>
      SentRejectedAt(pending, id, message, render, create, k);
      assert |Shortcuts(id, k)| == k;
  }

  /**
   * The counter: one shortcut per created smiley, numbered consecutively
   * from id, and the counter afterwards is past all of them. A formula that
   * renders but whose smiley cannot be created still uses up a number.
   */
  lemma SentIds(pending: Pending, id: nat, message: string, render: string -> int, create: string -> bool)
    ensures var o := Sent(pending, id, message, render, create);
      && (forall t :: 0 <= t < |o.created| ==> o.created[t] == Shortcut(id + t))
      && id + |o.created| <= o.nextId <= id + |o.calls|
      && (o.message.None? && render(o.calls[|o.calls| - 1]) == 0 ==> o.nextId == id + |o.created| + 1)
  {
    if FindDelim(message).Some? {
      var fs := Formulas(Split(message));
      var o := Sent(pending, id, message, render, create);
      ShortcutsIndexed();
      match FirstRejected(fs, id, render, create)
      case None =>
        SentAllAccepted(pending, id, message, render, create);
      case Some(k) =>
        SentRejectedAt(pending, id, message, render, create, k);
    }
  }

  /**
   * With an odd number of delimiters the split has an even number of
   * pieces, so the text after the last delimiter is a formula segment.
   */
  lemma TrailingFormula(message: string)
    requires DelimCount(message) % 2 == 1
    ensures var v := Split(message);
      && |v| % 2 == 0
      && |v| >= 2
      && Formulas(v)[|v| / 2 - 1] == v[|v| - 1]
  {
    SplitCount(message);
    var v := Split(message);
    var half := DelimCount(message) / 2 + 1;
    assert |v| == 2 * half;
    FormulaAt(v, half - 1);
  }

  /**
   * With an odd number of delimiters, a send that succeeds has handed the
   * text after the last delimiter to the renderer, as its last call.
   */
  lemma SentTrailingSegment(pending: Pending, id: nat, message: string, render: string -> int, create: string -> bool)
    requires DelimCount(message) % 2 == 1
    ensures var v := Split(message);
      var o := Sent(pending, id, message, render, create);
      o.message.Some? ==> |o.calls| >= 1 && o.calls[|o.calls| - 1] == v[|v| - 1]
  {
    TrailingFormula(message);
    SplitCount(message);
    var fs := Formulas(Split(message));
    var o := Sent(pending, id, message, render, create);
    if o.message.Some? {
      assert FirstRejected(fs, id, render, create).None?;
      assert o.calls == fs;
    }
  }

  /** Shortcuts with consecutive numbers from id1 and from id2 >= id1 + |c1| never meet. */
  lemma RunsDisjoint(c1: seq<string>, id1: nat, c2: seq<string>, id2: nat)
    requires forall s :: 0 <= s < |c1| ==> c1[s] == Shortcut(id1 + s)
    requires forall t :: 0 <= t < |c2| ==> c2[t] == Shortcut(id2 + t)
    requires id1 + |c1| <= id2
    ensures forall s, t :: 0 <= s < |c1| && 0 <= t < |c2| ==> c1[s] != c2[t]
  {
    forall s, t | 0 <= s < |c1| && 0 <= t < |c2|
      ensures c1[s] != c2[t]
    {
      ShortcutInjective(id1 + s, id2 + t);
    }
  }

  /** Shortcuts with consecutive numbers are pairwise distinct. */
  lemma RunDistinct(c: seq<string>, id: nat)
    requires forall s :: 0 <= s < |c| ==> c[s] == Shortcut(id + s)
    ensures forall s, t :: 0 <= s < t < |c| ==> c[s] != c[t]
  {
    forall s, t | 0 <= s < t < |c|
      ensures c[s] != c[t]
    {
      ShortcutInjective(id + s, id + t);
    }
  }

  /** The shortcuts created by one send are pairwise distinct. */
  lemma SentCreatesDistinct(pending: Pending, id: nat, message: string, render: string -> int, create: string -> bool)
    ensures var o := Sent(pending, id, message, render, create);
      forall s, t :: 0 <= s < t < |o.created| ==> o.created[s] != o.created[t]
  {
    SentIds(pending, id, message, render, create);
    RunDistinct(Sent(pending, id, message, render, create).created, id);
  }

  /**
   * A send that starts from any counter value at or past the one an earlier
   * send left behind, whatever sends came in between, never creates a
   * shortcut the earlier send created: the counter only grows.
   */
  lemma SuccessiveSendsDistinct(pending1: Pending, id1: nat, m1: string, render1: string -> int, create1: string -> bool,
                                pending2: Pending, id2: nat, m2: string, render2: string -> int, create2: string -> bool)
    requires id2 >= Sent(pending1, id1, m1, render1, create1).nextId
    ensures var o1 := Sent(pending1, id1, m1, render1, create1);
      var o2 := Sent(pending2, id2, m2, render2, create2);
      forall s, t :: 0 <= s < |o1.created| && 0 <= t < |o2.created| ==> o1.created[s] != o2.created[t]
  {
    var o1 := Sent(pending1, id1, m1, render1, create1);
    var o2 := Sent(pending2, id2, m2, render2, create2);
    SentIds(pending1, id1, m1, render1, create1);
    SentIds(pending2, id2, m2, render2, create2);
    RunsDisjoint(o1.created, id1, o2.created, id2);
  }

  /** The shortcuts created by a run of sends, each starting where the previous one left the slot and counter. */
  function RunCreated(pending: Pending, id: nat, messages: seq<string>, render: string -> int, create: string -> bool): seq<string>
    decreases |messages|
  {
    if messages == [] then []
    else
      var o := Sent(pending, id, messages[0], render, create);
      o.created + RunCreated(o.pending, o.nextId, messages[1..], render, create)
  }

  /** The counter values id, id + 1, ..., id + count - 1. */
  function Numbers(id: nat, count: nat): seq<nat>
  {
    seq(count, t requires 0 <= t < count => id + t)
  }

  /** The counter values behind the shortcuts of `RunCreated`, in order. */
  function RunNumbers(pending: Pending, id: nat, messages: seq<string>, render: string -> int, create: string -> bool): seq<nat>
    decreases |messages|
  {
    if messages == [] then []
    else
      var o := Sent(pending, id, messages[0], render, create);
      Numbers(id, |o.created|) + RunNumbers(o.pending, o.nextId, messages[1..], render, create)
  }

  /**
   * Consecutive shortcuts from id, followed by shortcuts with increasing
   * numbers at or past the end of that run: together they have increasing
   * numbers, all at or past id.
   */
  lemma AppendRun(c: seq<string>, id: nat, next: nat, rest: seq<string>, ns: seq<nat>)
    requires forall s :: 0 <= s < |c| ==> c[s] == Shortcut(id + s)
    requires id + |c| <= next
    requires |rest| == |ns|
    requires forall s :: 0 <= s < |rest| ==> rest[s] == Shortcut(ns[s]) && next <= ns[s]
    requires forall s, t :: 0 <= s < t < |ns| ==> ns[s] < ns[t]
    ensures var r := c + rest;
      var all := Numbers(id, |c|) + ns;
      && |all| == |r|
      && (forall s :: 0 <= s < |r| ==> r[s] == Shortcut(all[s]) && id <= all[s])
      && (forall s, t :: 0 <= s < t < |all| ==> all[s] < all[t])
  {
    var r := c + rest;
    var all := Numbers(id, |c|) + ns;
    var n := |c|;
    forall s | 0 <= s < |r|
      ensures r[s] == Shortcut(all[s]) && id <= all[s]
    {
      if s < n {
        assert r[s] == c[s] && all[s] == id + s;
      } else {
        assert r[s] == rest[s - n] && all[s] == ns[s - n];
      }
    }
    forall s, t | 0 <= s < t < |all|
      ensures all[s] < all[t]
    {
      if t < n {
        assert all[s] == id + s && all[t] == id + t;
      } else if s >= n {
        assert all[s] == ns[s - n] && all[t] == ns[t - n];
      } else {
        assert all[s] == id + s && all[t] == ns[t - n];
      }
    }
  }

  /**
   * Every shortcut created in a run of sends carries its counter value; the
   * values are at or past the counter the run started from and strictly
   * increase along the run.
   */
  lemma {:induction false} RunNumbered(pending: Pending, id: nat, messages: seq<string>,
                                       render: string -> int, create: string -> bool)
    ensures var r := RunCreated(pending, id, messages, render, create);
      var ns := RunNumbers(pending, id, messages, render, create);
      && |ns| == |r|
      && (forall s :: 0 <= s < |r| ==> r[s] == Shortcut(ns[s]) && id <= ns[s])
      && (forall s, t :: 0 <= s < t < |ns| ==> ns[s] < ns[t])
    decreases |messages|
  {
    if messages != [] {
      var o := Sent(pending, id, messages[0], render, create);
      SentIds(pending, id, messages[0], render, create);
      RunNumbered(o.pending, o.nextId, messages[1..], render, create);
      AppendRun(o.created, id, o.nextId,
                RunCreated(o.pending, o.nextId, messages[1..], render, create),
                RunNumbers(o.pending, o.nextId, messages[1..], render, create));
    }
  }

  /** No shortcut is ever created twice in a run of sends from one counter. */
  lemma RunCreatedDistinct(pending: Pending, id: nat, messages: seq<string>,
                           render: string -> int, create: string -> bool)
    ensures var r := RunCreated(pending, id, messages, render, create);
      forall s, t :: 0 <= s < t < |r| ==> r[s] != r[t]
  {
    var r := RunCreated(pending, id, messages, render, create);
    var ns := RunNumbers(pending, id, messages, render, create);
    RunNumbered(pending, id, messages, render, create);
    forall s, t | 0 <= s < t < |r|
      ensures r[s] != r[t]
    {
      ShortcutInjective(ns[s], ns[t]);
    }
  }

  /** What the display hook leaves behind. */
  datatype Display = Display(
    pending: Pending,  // the staging slot afterwards
    message: string,   // `*message` afterwards
    suppress: bool)    // the hook's return value: TRUE stops the message being shown

  /**
   * `writing_im_msg_cb`: with an empty slot or an event without the send
   * flag nothing happens; the error sentinel suppresses the message and
   * stays; staged text replaces the message and empties the slot.
   */
  function Written(pending: Pending, message: string, send: bool): Display
  {
    if pending.Empty? || !send then Display(pending, message, false)
    else if pending.ErrorMark? then Display(pending, message, true)
    else Display(Empty, pending.text, false)
  }

  /**
   * The display hook suppresses exactly the sent messages that meet the
   * error sentinel, changes a message only to hand out staged text, and
   * empties the slot exactly when it hands that text out.
   */
  lemma WrittenEffects(pending: Pending, message: string, send: bool)
    ensures var d := Written(pending, message, send);
      && (d.suppress <==> send && pending == ErrorMark)
      && (d.message != message ==> send && pending == Staged(d.message))
      && (d.pending != pending <==> send && pending.Staged?)
      && (d.pending == ErrorMark ==> pending == ErrorMark)
      && (send && pending.Staged? ==> d == Display(Empty, pending.text, false))
  {
  }

  /** Staged text is handed out once: a second display finds the slot empty. */
  lemma StagedTakenOnce(text: string, m1: string, m2: string)
    ensures var d1 := Written(Staged(text), m1, true);
      var d2 := Written(d1.pending, m2, true);
      && d1 == Display(Empty, text, false)
      && d2 == Display(Empty, m2, false)
  {
  }

  /** An event on the slot: a message sent, or a message displayed. */
  datatype Event = Sending(text: string) | Writing(text: string, send: bool)

  /** The staging slot after a run of events, starting from pending. */
  function Replay(pending: Pending, id: nat, events: seq<Event>, render: string -> int, create: string -> bool): Pending
    decreases |events|
  {
    if events == [] then pending
    else
      match events[0]
      case Sending(m) =>
        var o := Sent(pending, id, m, render, create);
        Replay(o.pending, o.nextId, events[1..], render, create)
      case Writing(m, send) =>
        Replay(Written(pending, m, send).pending, id, events[1..], render, create)
  }

  /** No event sends a message that contains a delimiter. */
  predicate NoDelimSent(events: seq<Event>)
  {
    forall k :: 0 <= k < |events| && events[k].Sending? ==> FindDelim(events[k].text).None?
  }

  /**
   * The error sentinel is never cleared by the display hook: once a send has
   * failed, the slot holds it through every display and every send without
   * a delimiter, so each such message displayed as sent is suppressed.
   */
  lemma {:induction false} ErrorMarkSticky(id: nat, events: seq<Event>, render: string -> int, create: string -> bool)
    requires NoDelimSent(events)
    ensures Replay(ErrorMark, id, events, render, create) == ErrorMark
  {
    if events != [] {
      assert NoDelimSent(events[1..]) by {
        forall k | 0 <= k < |events[1..]| && events[1..][k].Sending?
          ensures FindDelim(events[1..][k].text).None?
        {
          assert events[1..][k] == events[k + 1];
        }
      }
      ErrorMarkSticky(id, events[1..], render, create);
    }
  }

  /** `remove_smileys`: the registry without the shortcuts carrying the pipeline's prefix. */
  function Purged(registry: seq<string>): seq<string>
  {
    if registry == [] then []
    else
      var last := registry[|registry| - 1];
      Purged(registry[..|registry| - 1]) + (if HasPrefix(last, ShortcutPrefix) then [] else [last])
  }

  /** Purging one more entry appends it unless it carries the prefix. */
  lemma PurgedSnoc(all: seq<string>, i: nat)
    requires i < |all|
    ensures Purged(all[..i + 1]) == Purged(all[..i]) + (if HasPrefix(all[i], ShortcutPrefix) then [] else [all[i]])
  {
    assert all[..i + 1][..i] == all[..i];
  }

  /** Deleting the entry right after the kept ones moves the scan on by one. */
  lemma DropNext(kept: seq<string>, all: seq<string>, i: nat)
    requires i < |all|
    ensures (kept + all[i..])[..|kept|] + (kept + all[i..])[|kept| + 1..] == kept + all[i + 1..]
  {
    var r := kept + all[i..];
    assert r[..|kept|] == kept;
    assert r[|kept| + 1..] == all[i + 1..];
  }

  /** Keeping the entry right after the kept ones moves the scan on by one. */
  lemma KeepNext(kept: seq<string>, all: seq<string>, i: nat)
    requires i < |all|
    ensures kept + all[i..] == (kept + [all[i]]) + all[i + 1..]
  {
    assert all[i..] == [all[i]] + all[i + 1..];
  }

  /**
   * A step of the deleting scan that meets an entry with the prefix, with
   * kept the survivors of the first i entries and reg the registry: the
   * entry right after the survivors is deleted and they stay as they are.
   */
  lemma ScanDrop(kept: seq<string>, all: seq<string>, i: nat, reg: seq<string>)
    requires i < |all| && kept == Purged(all[..i]) && reg == kept + all[i..]
    requires HasPrefix(all[i], ShortcutPrefix)
    ensures kept == Purged(all[..i + 1])
    ensures reg[..|kept|] + reg[|kept| + 1..] == kept + all[i + 1..]
  {
    PurgedSnoc(all, i);
    DropNext(kept, all, i);
  }

  /** A step of the deleting scan that meets an entry without the prefix: it joins the survivors. */
  lemma ScanKeep(kept: seq<string>, all: seq<string>, i: nat, reg: seq<string>)
    requires i < |all| && kept == Purged(all[..i]) && reg == kept + all[i..]
    requires !HasPrefix(all[i], ShortcutPrefix)
    ensures kept + [all[i]] == Purged(all[..i + 1])
    ensures reg == (kept + [all[i]]) + all[i + 1..]
  {
    PurgedSnoc(all, i);
    KeepNext(kept, all, i);
  }

  /** The purge keeps exactly the entries without the prefix. */
  lemma {:induction false} PurgedExact(registry: seq<string>)
    ensures forall s :: s in Purged(registry) <==> s in registry && !HasPrefix(s, ShortcutPrefix)
  {
    if registry != [] {
      var init := registry[..|registry| - 1];
      PurgedExact(init);
      assert registry == init + [registry[|registry| - 1]];
    }
  }

  /** No shortcut the pipeline creates survives a purge, and nothing else is dropped. */
  lemma PurgedRemovesCreated(registry: seq<string>, id: nat, s: string)
    ensures Shortcut(id) !in Purged(registry)
    ensures s in registry && !HasPrefix(s, ShortcutPrefix) ==> s in Purged(registry)
    ensures HasPrefix(s, ShortcutPrefix) ==> s !in Purged(registry)
  {
    PurgedExact(registry);
    ShortcutPrefixed(id);
  }

  /** Purging twice is purging once. */
  lemma {:induction false} PurgedIdempotent(registry: seq<string>)
    ensures Purged(Purged(registry)) == Purged(registry)
  {
    if registry != [] {
      var init := registry[..|registry| - 1];
      var last := registry[|registry| - 1];
      PurgedIdempotent(init);
      if !HasPrefix(last, ShortcutPrefix) {
        var p := Purged(registry);
        assert p == Purged(init) + [last];
        assert p[..|p| - 1] == Purged(init);
        assert p[|p| - 1] == last;
        assert Purged(p) == Purged(Purged(init)) + [last];
      } else {
        assert Purged(registry) == Purged(init) + [];
        assert Purged(init) + [] == Purged(init);
      }
    }
  }
}
