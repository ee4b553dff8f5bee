/**
 * The plugin's state and callbacks as the C file has them: the globals
 * `new_message` (the staging slot) and `smiley_id` (the shortcut counter),
 * and the host's smiley registry, updated in place by `sending_im_msg_cb`,
 * `writing_im_msg_cb` and `remove_smileys`.
 */
module FormulaFilter {
  import opened Wrappers
  import opened Text
  import opened Pipeline

  class Plugin {
    /** `new_message`: NULL, staged text, or the `error_message` sentinel. */
    var pending: Pending
    /** `smiley_id`: the number of the next shortcut. */
    var smileyId: nat
    /** The shortcuts of the smileys registered with the host, in its order. */
    var registry: seq<string>

    /** The statics as the process starts them, next to the host's registry. */
    constructor (smileys: seq<string>)
      ensures pending == Empty && smileyId == 0 && registry == smileys
    {
      pending := Empty;
      smileyId := 0;
      registry := smileys;
    }

    /**
     * `sending_im_msg_cb`. Returns the new `*message` (None for NULL), the
     * formulas handed to the renderer in order, and the error text the
     * sender is shown, if any.
     */
    method SendingImMsg(message: string, render: string -> int, create: string -> bool)
      returns (sent: Option<string>, calls: seq<string>, note: Option<string>)
      modifies this
      ensures var o := Sent(old(pending), old(smileyId), message, render, create);
        && sent == o.message && calls == o.calls && note == o.note
        && pending == o.pending && smileyId == o.nextId
        && registry == old(registry) + o.created
    {
      if FindDelim(message).None? {
        return Some(message), [], None;
      }
      var pieces := Split(message);
      SplitCount(message);
      var v := ToArray(pieces);
      ghost var id0 := smileyId;
      var failure;
      ghost var done;
      failure, calls, done := RenderFormulas(v, render, create);
      match failure
      case Some(Failure(formula, code)) =>
        // error path: nothing is sent and the slot holds the sentinel
        sent, note, pending := None, Some(ErrorText(formula, code)), ErrorMark;
      case None =>
        var joined := Join(v[..]);
        pending := Staged(joined);
        sent, note := Some(joined), None;
    }

    /** `g_strsplit`'s result vector: a fresh array holding the pieces. */
    static method ToArray(pieces: seq<string>) returns (v: array<string>)
      ensures fresh(v) && v[..] == pieces
    {
      v := new string[|pieces|](j requires 0 <= j < |pieces| => pieces[j]);
    }

    /**
     * The do/while over the split message in `sending_im_msg_cb`: starting
     * at position 1, render the formula, stop on a non-zero exit code, take
     * the next shortcut number, stop if the smiley cannot be created,
     * otherwise overwrite the formula with its shortcut, and go on two
     * positions further while both of them exist.
     */
    method RenderFormulas(v: array<string>, render: string -> int, create: string -> bool)
      returns (failure: Option<Failure>, calls: seq<string>, ghost done: nat)
      requires v.Length >= 2
      modifies this`smileyId, this`registry, v
      ensures Walk(old(v[..]), old(smileyId), render, create) == WalkEnd(failure, calls, done, smileyId, v[..])
      ensures registry == old(registry) + Shortcuts(old(smileyId), done)
    {
      ghost var segs := v[..];
      ghost var fs := Formulas(segs);
      ghost var id0 := smileyId;
      FormulasIndexed();
      ShortcutsIndexed();
      done := 0;
      calls := [];
      var p := 1;
      var more := true;
      while more
        invariant done <= |fs| == v.Length / 2
        invariant more ==> p == 2 * done + 1 && p < v.Length
        invariant !more ==> done == |fs|
        invariant calls == fs[..done]
        invariant forall t :: 0 <= t < done ==> Accepted(fs[t], id0 + t, render, create)
        invariant smileyId == id0 + done
        invariant registry == old(registry) + Shortcuts(id0, done)
        invariant v[..] == Partial(segs, id0, done)
        decreases v.Length - p, more
      {
        var formula := v[p];
        PartialAt(segs, id0, done, p);
        FormulaAt(segs, done);
        assert formula == fs[done];
        calls := calls + [formula];
        assert calls == fs[..done + 1];
        ghost var before := v[..];
        var ret, created := ReplaceFormula(v, p, render, create);
        if ret != 0 || !created {
          // stop at this formula; its note carries code 0 when only the smiley creation failed
          WalkStops(segs, id0, render, create, done);
          return Some(Failure(formula, ret)), calls, done;
        }
        ReplacedStep(segs, id0, done, render, create, before, v[..]);
        done := done + 1;
        // go on two positions further, and only while both of them exist
        p := p + 1;
        if p < v.Length {
          p := p + 1;
          more := p < v.Length;
        } else {
          more := false;
        }
      }
      WalkCompletes(segs, id0, render, create);
      failure := None;
    }

    /**
     * One pass of the do/while body on the formula at position p: render it
     * and stop on a non-zero exit code; otherwise take the next shortcut
     * number and stop if the smiley cannot be created; otherwise register
     * the smiley and put its shortcut in place of the formula.
     */
    method ReplaceFormula(v: array<string>, p: int, render: string -> int, create: string -> bool)
      returns (ret: int, created: bool)
      requires 0 <= p < v.Length
      modifies this`smileyId, this`registry, v
      ensures ret == render(old(v[p]))
      ensures ret != 0 ==> smileyId == old(smileyId) && registry == old(registry) && v[..] == old(v[..])
      ensures ret == 0 ==> smileyId == old(smileyId) + 1 && created == create(Shortcut(old(smileyId)))
      ensures ret == 0 && !created ==> registry == old(registry) && v[..] == old(v[..])
      ensures ret == 0 && created ==>
        && registry == old(registry) + [Shortcut(old(smileyId))]
        && v[..] == old(v[..])[p := Shortcut(old(smileyId))]
    {
      ret := render(v[p]);
      if ret != 0 {
        // rendering failed: report its exit code and stop
        return ret, false;
      }
      var shortcut := Shortcut(smileyId);
      smileyId := smileyId + 1;
      created := create(shortcut);
      if !created {
        // the smiley could not be created: its number is used up anyway
        return;
      }
      registry := registry + [shortcut];
      v[p] := shortcut;
    }

    /**
     * `writing_im_msg_cb`; `send` stands for `(flags & PURPLE_MESSAGE_SEND) != 0`.
     * Returns the new `*message` and the callback's result (true suppresses
     * the message).
     */
    method WritingImMsg(message: string, send: bool) returns (shown: string, suppress: bool)
      modifies this`pending
      ensures var d := Written(old(pending), message, send);
        pending == d.pending && shown == d.message && suppress == d.suppress
    {
      if pending.Empty? || !send {
        return message, false;
      }
      if pending.ErrorMark? {
        return message, true;
      }
      shown := pending.text;
      pending := Empty;
      suppress := false;
    }

    /**
     * `remove_smileys`: walks a snapshot of the registered smileys and
     * deletes every one whose shortcut starts with the pipeline's prefix.
     */
    method RemoveSmileys()
      modifies this`registry
      ensures registry == Purged(old(registry))
    {
      var all := registry;
      var kept: seq<string> := [];
      var i := 0;
      while i < |all|
        invariant 0 <= i <= |all|
        invariant kept == Purged(all[..i])
        invariant registry == kept + all[i..]
      {
        if HasPrefix(all[i], ShortcutPrefix) {
          // delete it: the entry right after the kept ones goes
          ScanDrop(kept, all, i, registry);
          registry := registry[..|kept|] + registry[|kept| + 1..];
        } else {
          ScanKeep(kept, all, i, registry);
          kept := kept + [all[i]];
        }
        i := i + 1;
      }
      assert all[..i] == all;
    }
  }
}
