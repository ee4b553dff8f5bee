# formula-filter: the message-substitution pipeline

formula-filter is a libpurple (Pidgin) plugin. A user types a message such as
`see $$x^2$$ here`. Before the message goes out, the plugin does four things:

- It cuts the text at every `$$`.
- It hands each formula segment to an external renderer.
- It registers each rendered image with the host as a smiley named `ff-N`.
- It sends the text with each formula replaced by its smiley's shortcut.

The plugin touches three pieces of state:

- the staging slot `new_message`;
- the counter `smiley_id`;
- the host's smiley registry.

This project models that pipeline and proves its properties. The send hook
(`sending_im_msg_cb`) splits the message, walks the odd segments, stops at the
first failure and joins the pieces back. The display hook (`writing_im_msg_cb`)
uses the slot. The purge (`remove_smileys`), run when the plugin is loaded and
when it is unloaded, deletes every registered smiley whose shortcut starts
with `ff-`, whoever registered it.

The project has these files:

- `wrappers.dfy`: an `Option` type.
- `text.dfy` (module `Text`): the string operations the C code takes from
  libc and GLib. These are `strstr`, `g_strsplit(s, "$$", -1)`,
  `g_strjoinv(NULL, v)` and `g_str_has_prefix`. It also holds the
  split-then-join round trip on `$$`, and the converse for dollar-free pieces.
- `decimal.dfy` (module `Decimal`): the `%d` conversion used to build
  shortcut names and error notes. It is proved to round-trip and to be
  injective.
- `pipeline.dfy` (module `Pipeline`): `Sent`, a pure specification of the
  send hook. It is built on `Walk`, which describes the do/while over the
  segments. The same module holds `Written` (the display hook), `Purged`
  (the purge), `ErrorText` (the error note) and the lemmas about them all.
- `plugin.dfy` (module `FormulaFilter`): the class `Plugin`. Its fields are
  the slot, the counter and the registry, and its methods are the three
  callbacks. The send hook works in place on an array, like the C code's
  `char **v`, and overwrites each rendered formula with its shortcut.
  The three callbacks and the do/while (`SendingImMsg`, `WritingImMsg`,
  `RemoveSmileys`, `RenderFormulas`) are proved against `Sent`, `Written`,
  `Purged` and `Walk`; `ToArray` is specified by the array's contents.
- `scenarios.dfy` (module `Scenarios`): the pipeline on messages of given
  shapes. The shapes are `a$$f$$b` and `a$$b$$c$$d`, with any dollar-free
  `a`, `b`, `c`, `d` and `f`.

Two parts of the host are oracles. The renderer, a child process whose exit
code `execute` returns, is `render: string -> int`. A call to
`purple_smiley_new_from_file`, which returns NULL on failure, is
`create: string -> bool`. The event flag test `(flags & PURPLE_MESSAGE_SEND) != 0`
is the boolean `send`.

Four behaviours of formula-filter.c are easy to miss:

- `g_strsplit` with no token limit splits at every `$$`, and the do/while
  moves on two positions whenever both exist, so it visits every odd position
  of the vector. With an odd number of `$$` the text after the last one is
  therefore rendered too: `a$$b$$c$$d` splits into `a`, `b`, `c`, `d`, and
  both `b` and `d` are rendered (`TrailingFormula`, `SentTrailingSegment`,
  `OddDelimitersRenderTrailing`).
- `writing_im_msg_cb` returns TRUE on the error sentinel without clearing the
  slot. Every later sent message is suppressed until a send with a `$$`
  overwrites the slot (`ErrorMarkSticky`).
- The counter is incremented as the shortcut is built, before the smiley is
  created (formula-filter.c:169-171). A formula that renders with code 0 but
  whose smiley cannot be created still uses up a number (`SentIds`,
  `WalkStops`).
- `smiley_id` is a static that `plugin_load` never resets. The model sets it
  only in the constructor, at process start.

## Model

| member | source | states |
|---|---|---|
| Text.HasPrefix | formula-filter.c:241 | `g_str_has_prefix`: the text begins with the prefix. Used by `Purged`; see `ShortcutPrefixed` and `PurgedExact`. |
| Text.FindDelim | formula-filter.c:141 | The position returned is the leftmost `$$`. None means the text has no `$$` anywhere. |
| Text.Pieces | formula-filter.c:152 | The pieces of a non-empty text: the text up to the leftmost `$$`, then the pieces of what follows it. There is always at least one piece. See `PiecesDelimFree`, `PiecesCount` and `PiecesOfJoin`. |
| Text.Split | formula-filter.c:152 | `g_strsplit(s, "$$", -1)`: `Pieces` of the text, and the empty vector for the empty text. See `SplitJoin`, `SplitCount` and `SplitOfJoin`. |
| Text.Join | formula-filter.c:184 | `g_strjoinv(NULL, v)`: the pieces concatenated in order with no separator. See `JoinConcat` and `JoinCons`. |
| Text.SplitJoin | formula-filter.c:152 | Putting `$$` back between the pieces of the split gives the original message. |
| Text.PiecesOfJoin | formula-filter.c:152 | Dollar-free pieces joined on `$$` split back into the same pieces. |
| Text.SplitOfJoin | formula-filter.c:141-152 | Two or more dollar-free pieces joined on `$$` give a text that passes the `strstr` test and splits into exactly those pieces. |
| Text.JoinConcat | formula-filter.c:184 | Joining with no separator is a homomorphism: joining two vectors one after the other gives the two joins concatenated. |
| Text.JoinCons | formula-filter.c:184 | The joined text starts with the first piece, followed by the join of the rest. |
| Text.PiecesDelimFree | formula-filter.c:152 | No piece of the split contains `$$`. |
| Text.SplitCount | formula-filter.c:141-154 | A non-empty text with k delimiters splits into k+1 pieces. The split has at least two pieces exactly when `strstr` finds `$$`. So `v[1]`, the first entry the do/while reads, exists. |
| Decimal.NatToDecimal | formula-filter.c:169 | `%d` of a counter value: a non-empty string of decimal digits. See `DecimalRoundTrip` and `NatToDecimalInjective`. |
| Decimal.IntToDecimal | formula-filter.c:121 | `%d` of an exit code: a minus sign before the digits of a negative value. See `IntToDecimalInjective`. |
| Decimal.DecimalRoundTrip | formula-filter.c:169 | Reading back the digits `%d` writes for n gives n. |
| Decimal.IntToDecimalInjective | formula-filter.c:121 | Different ints print differently with `%d`, negative values included. |
| Pipeline.Shortcut | formula-filter.c:169 | `ff-%d` of a counter value: the prefix `ff-` followed by the value's digits. See `ShortcutPrefixed` and `ShortcutInjective`. |
| Pipeline.ShortcutPrefixed | formula-filter.c:169 | Every shortcut `ff-%d` starts with `ff-`. |
| Pipeline.ShortcutInjective | formula-filter.c:169 | Different counter values give different shortcuts. |
| Pipeline.ErrorText | formula-filter.c:119-123 | The note always starts with `Error creating smiley from '<formula>'`. It is exactly that text when the code is 0. |
| Pipeline.ErrorTextCode | formula-filter.c:119-121 | For the same formula, different exit codes give different notes. |
| Pipeline.FirstRejected | formula-filter.c:162-174 | Gives the first formula that renders with a non-zero code or whose smiley cannot be created, with every earlier formula accepted. None means every formula is accepted. |
| Pipeline.Walk | formula-filter.c:154-182 | The do/while over the segments: the failure it stops on, the calls made, the formulas replaced, the counter afterwards and the segments afterwards. See `WalkCompletes`, `WalkStops` and `TrailingFormula`. |
| Pipeline.WalkCompletes | formula-filter.c:154-182 | When every formula is accepted, the walk renders all formulas in order. It replaces each one with its shortcut and advances the counter by their number. |
| Pipeline.WalkStops | formula-filter.c:160-174 | When formula k is the first not accepted, the walk renders exactly formulas 0..k and replaces formulas 0..k-1. The counter has moved past formula k only if k rendered with code 0. |
| Pipeline.PartialComplete | formula-filter.c:180-182 | Replacing every formula in place, one at a time, gives the segments with formula j replaced by `ff-(id+j)` and literals unchanged. |
| Pipeline.Sent | formula-filter.c:131-201 | The outcome of the send hook: the new message, note, slot, counter, calls and created shortcuts. See `SentNoDelim`, `SentAllAccepted`, `SentRejectedAt`, `SentFailFast`, `SentIds` and `RunCreatedDistinct`. |
| Pipeline.SentNoDelim | formula-filter.c:141-142 | Without `$$`, the send hook changes nothing. The message, slot and counter are unchanged, no renderer call is made and no smiley is created. |
| Pipeline.SentAllAccepted | formula-filter.c:152-188 | When every formula is accepted, the message and the slot both hold the segments joined with no separator. Each formula is replaced by its shortcut and literals are unchanged. |
| Pipeline.SentRejectedAt | formula-filter.c:160-174 | When formula k is the first rejected, the message is NULL, the slot holds the sentinel and formulas 0..k were rendered. Smileys 0..k-1 exist and the note names formula k with its code. |
| Pipeline.SentCallsFormulas | formula-filter.c:154-182 | The formulas are rendered in order: call t receives `v[2t+1]`, so a literal segment is never rendered. At least one call is made. Every call but the last was accepted. |
| Pipeline.SentDropped | formula-filter.c:162-174 | The message is dropped exactly when some formula is not accepted. |
| Pipeline.SentFailFast | formula-filter.c:162-200 | When the message is dropped, the last call is the first rejected formula: every earlier call was accepted. The slot holds the sentinel, one smiley fewer than calls was created, and the note names the failing formula and its code. |
| Pipeline.SentIds | formula-filter.c:169 | The created shortcuts are `ff-id`, `ff-(id+1)`, ... in order. The counter advances at least once per created smiley and at most once per call. A smiley whose formula rendered with code 0 but could not be created still consumed a number. |
| Pipeline.TrailingFormula | formula-filter.c:152-182 | With an odd number of `$$`, the split has an even number of pieces, so the last piece is a formula segment. |
| Pipeline.SentTrailingSegment | formula-filter.c:152-182 | With an odd number of `$$`, a send that succeeds has handed the last piece to the renderer, as its last call. |
| Pipeline.SentCreatesDistinct | formula-filter.c:169 | The shortcuts created by one send are pairwise distinct. |
| Pipeline.SuccessiveSendsDistinct | formula-filter.c:59 | A send that starts from any counter value at or past the one an earlier send left, whatever happened in between, creates no shortcut the earlier send created. |
| Pipeline.RunNumbered | formula-filter.c:169 | Along a run of sends, each starting from the slot and counter the previous one left, every created shortcut is `ff-N` for a counter value N at or past the starting counter, and these values strictly increase. |
| Pipeline.RunCreatedDistinct | formula-filter.c:169 | No shortcut is created twice in any run of sends from one counter. |
| Pipeline.Written | formula-filter.c:203-232 | The outcome of the display hook: the slot afterwards, the message afterwards and the return value. See `WrittenEffects`, `StagedTakenOnce` and `ErrorMarkSticky`. |
| Pipeline.WrittenEffects | formula-filter.c:219-232 | The display hook suppresses exactly the sent messages that meet the sentinel. It changes the message only to the staged text, and empties the slot exactly when it hands staged text out. |
| Pipeline.StagedTakenOnce | formula-filter.c:228-230 | Staged text is handed out once. A second display of a sent message finds the slot empty and leaves that message alone. |
| Pipeline.ErrorMarkSticky | formula-filter.c:222-223 | From the sentinel, any run of displays and sends without `$$` leaves the sentinel in place. |
| Pipeline.Purged | formula-filter.c:235-243 | The registry after the purge: the entries without the `ff-` prefix, in order. See `PurgedExact`, `PurgedRemovesCreated` and `PurgedIdempotent`. |
| Pipeline.PurgedExact | formula-filter.c:240-243 | An entry survives the purge exactly when it was registered and does not start with `ff-`. |
| Pipeline.PurgedRemovesCreated | formula-filter.c:240-243 | No shortcut the pipeline creates survives the purge, and neither does any other entry starting with `ff-`, whoever created it. Every registered entry without the prefix survives. |
| Pipeline.PurgedIdempotent | formula-filter.c:240-243 | Purging twice is purging once. |
| Scenarios.OddDelimitersRenderTrailing | formula-filter.c:152-182 | `a$$b$$c$$d` splits into `a`, `b`, `c`, `d`, and its formulas are `b` and `d`. |
| Scenarios.OneFormulaSplit | formula-filter.c:141-152 | `a$$f$$b` passes the `strstr` test and splits into `a`, `f`, `b`. |
| Scenarios.OneFormulaAccepted | formula-filter.c:152-188 | When f is accepted, `a$$f$$b` is sent as `a` + `ff-id` + `b`. The slot holds the same text, the counter moves by one and `f` is the only call. |
| Scenarios.OneFormulaFails | formula-filter.c:162-200 | When f renders with exit code 2, the message is NULL and the slot holds the sentinel. The counter is unchanged and the note is `Error creating smiley from 'f', return code = 2`. |
| FormulaFilter.Plugin.constructor | formula-filter.c:59-60 | The slot starts empty, the counter starts at 0, and the host's registry is given. |
| FormulaFilter.Plugin.SendingImMsg | formula-filter.c:131-201 | The new message, the renderer calls, the note, the slot, the counter and the registry are exactly what `Sent` prescribes. The registry gains exactly the created shortcuts. |
| FormulaFilter.Plugin.ToArray | formula-filter.c:152 | The vector holds the split pieces in a fresh array. |
| FormulaFilter.Plugin.RenderFormulas | formula-filter.c:154-182 | The loop over the array ends as `Walk` prescribes: same failure, calls, count of replaced formulas, counter and array contents. The registry gains `ff-id` ... `ff-(id+done-1)`. |
| FormulaFilter.Plugin.ReplaceFormula | formula-filter.c:160-181 | A non-zero exit code changes nothing. Otherwise the counter moves by one. If the smiley is created, it is registered and its shortcut overwrites the formula in the array. |
| FormulaFilter.Plugin.WritingImMsg | formula-filter.c:219-232 | The slot, message and return value are exactly what `Written` prescribes. |
| FormulaFilter.Plugin.RemoveSmileys | formula-filter.c:240-243 | The registry afterwards is `Purged` of the registry before. |

## Left out

- `execute` (formula-filter.c:83-100) forks, runs the renderer and waits. It is process I/O, so the model has only its exit code, through the `render` oracle.
- The renderer writes a fixed PNG path that `purple_smiley_new_from_file` then reads. This file-system channel is left out: `create` depends only on the shortcut.
- `show_error_message`'s conversation lookup and write (formula-filter.c:105-118, 125-128) are host UI calls. The model returns the note text instead. In the code, the note is silently dropped when there is no conversation.
- Preferences, the signal connections in `plugin_load`/`plugin_unload`, `init_plugin` and the plugin-info tables are registration boilerplate. `plugin_load` and `plugin_unload` are modelled only through `remove_smileys`, which both call.
- Logging (`g_print`, `purple_debug_*`) and `g_free`/`free` have no effect on behaviour.
- Strings are sequences of characters. The model does not cover NUL bytes, encodings or C string lengths.
- SentIds: does not model overflow of the `gint` counter, because `smiley_id` is unbounded here.
- FormulaFilter.Plugin.RemoveSmileys: the host's smiley list is a sequence, and `purple_smiley_delete` removes one entry from it. The host's own handling of duplicate shortcuts and the list's order are not modelled.
- The renderer is a function of the formula text, so in the model a formula that appears twice exits the same way both times. The real child process, whose path comes from the preferences, need not behave like that.
- Concurrency: every hook runs on libpurple's single main loop, so the model treats each call as atomic.
- simple.c is not part of this model. It is a command wrapper around foreign calls.
