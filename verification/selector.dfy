/** The terminal list selector (internal/tui/list.go): a cursor over a list
    of options that wraps around at both ends, and a quit flag. */
module Selector {

  /** `SelectorModel`. `cursor` is a Go `int`; it only ever moves by one
      between `-1` and the number of options, so it never wraps. */
  datatype Model = Model(title: string, options: seq<string>, cursor: int, isQuited: bool)

  /** The messages `Update` distinguishes: a key press, named as `KeyMsg.String()`
      names it, or anything else. */
  datatype Msg = Key(name: string) | OtherMsg

  /** The command `Update` hands back to the runtime. */
  datatype Cmd = NoCmd | Quit

  /** `initialModel`. */
  function InitialModel(title: string, options: seq<string>): (m: Model)
    ensures m.title == title && m.options == options
    ensures m.cursor == 0 && !m.isQuited
  {
    Model(title, options, 0, false)
  }

  /** The cursor is on an option. */
  predicate InRange(m: Model) {
    0 <= m.cursor < |m.options|
  }

  /** The `up`/`k` arm. */
  function MoveUp(m: Model): Model {
    var c := if m.cursor >= 0 then m.cursor - 1 else m.cursor;
    m.(cursor := if c == -1 then |m.options| - 1 else c)
  }

  /** The `down`/`j` arm. */
  function MoveDown(m: Model): Model {
    var n := |m.options|;
    var c := if m.cursor < n then m.cursor + 1 else m.cursor;
    m.(cursor := if c == n then 0 else c)
  }

  /** `Update`: quit keys, the two cursor movements, and nothing for any
      other message. */
  function Update(m: Model, msg: Msg): (r: (Model, Cmd))
    ensures r.0.title == m.title && r.0.options == m.options
    ensures r.1 == Quit <==> msg.Key? && msg.name in {"ctrl+c", "q", "enter"}
    ensures r.0.isQuited == (m.isQuited || (msg.Key? && msg.name in {"ctrl+c", "q"}))
    ensures r.1 == Quit ==> r.0.cursor == m.cursor
  {
    if msg.OtherMsg? then (m, NoCmd)
    else if msg.name == "ctrl+c" || msg.name == "q" then (m.(isQuited := true), Quit)
    else if msg.name == "enter" then (m, Quit)
    else if msg.name == "up" || msg.name == "k" then (MoveUp(m), NoCmd)
    else if msg.name == "down" || msg.name == "j" then (MoveDown(m), NoCmd)
    else (m, NoCmd)
  }

  predicate IsMoveKey(msg: Msg) {
    msg.Key? && msg.name in {"up", "k", "down", "j"}
  }

  predicate IsQuitKey(msg: Msg) {
    msg.Key? && msg.name in {"ctrl+c", "q", "enter"}
  }

  /** `down`/`j` moves to the next option, from the last back to the first. */
  lemma DownWraps(m: Model, name: string)
    requires InRange(m) && (name == "down" || name == "j")
    ensures Update(m, Key(name)).0 == m.(cursor := (m.cursor + 1) % |m.options|)
  {
  }

  /** `up`/`k` moves to the previous option, from the first to the last. */
  lemma UpWraps(m: Model, name: string)
    requires InRange(m) && (name == "up" || name == "k")
    ensures Update(m, Key(name)).0 == m.(cursor := (m.cursor - 1 + |m.options|) % |m.options|)
  {
    var n := |m.options|;
    if m.cursor == 0 {
      assert (m.cursor - 1 + n) % n == n - 1;
    } else {
      assert (m.cursor - 1 + n) % n == m.cursor - 1;
    }
  }

  /** One step up undoes one step down, and the other way round. */
  lemma UpUndoesDown(m: Model)
    requires InRange(m)
    ensures MoveUp(MoveDown(m)) == m && MoveDown(MoveUp(m)) == m
  {
  }

  /** Keys that neither quit nor move, and messages that are not keys, leave
      the model as it is. */
  lemma OtherMessagesChangeNothing(m: Model, msg: Msg)
    requires !IsMoveKey(msg) && !IsQuitKey(msg)
    ensures Update(m, msg) == (m, NoCmd)
  {
  }

  /** On an empty list, `up` from the start leaves the cursor at `-1`, off
      every option. */
  lemma UpOnEmptyList(m: Model)
    requires m.options == [] && m.cursor == 0
    ensures Update(m, Key("up")).0.cursor == -1
  {
  }

  /** Every message keeps the cursor on an option. */
  lemma UpdateKeepsRange(m: Model, msg: Msg)
    requires InRange(m)
    ensures InRange(Update(m, msg).0)
  {
  }

  /** The model after a sequence of messages. */
  function Run(m: Model, msgs: seq<Msg>): (r: Model)
    ensures r.title == m.title && r.options == m.options
    decreases |msgs|
  {
    if |msgs| == 0 then m else Run(Update(m, msgs[0]).0, msgs[1..])
  }

  /** A cursor on an option stays on one through any sequence of messages. */
  lemma {:induction false} RunKeepsRange(m: Model, msgs: seq<Msg>)
    requires InRange(m)
    ensures InRange(Run(m, msgs))
    decreases |msgs|
  {
    if |msgs| > 0 {
      UpdateKeepsRange(m, msgs[0]);
      RunKeepsRange(Update(m, msgs[0]).0, msgs[1..]);
    }
  }

  /** Starting from `initialModel` over a non-empty list, the cursor stays on
      an option whatever keys are pressed. */
  lemma SessionStaysInRange(title: string, options: seq<string>, msgs: seq<Msg>)
    requires |options| >= 1
    ensures InRange(Run(InitialModel(title, options), msgs))
  {
    RunKeepsRange(InitialModel(title, options), msgs);
  }
}
