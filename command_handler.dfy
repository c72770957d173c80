/**
  The command dispatcher: SET, GET and DEL with their argument counts checked,
  anything else answered as an unknown command. Every reply is one line.
 */
module CommandHandler {
  import opened Wrappers
  import opened StorageEngine
  import opened Parser

  const OK_REPLY: string := "OK\n"
  const MISSING_REPLY: string := "-1\n"
  const UNKNOWN_REPLY: string := "ERROR: unknown command\n"

  function ArityError(name: string): string
  {
    "ERROR: wrong number of arguments for " + name + " command\n"
  }

  /** std::to_string of a bool. */
  function BoolText(b: bool): string
  {
    if b then "1" else "0"
  }

  /** A reply line: it ends in a newline and holds no other. */
  predicate OneLine(s: string)
  {
    |s| > 0 && s[|s| - 1] == '\n' && forall i :: 0 <= i < |s| - 1 ==> s[i] != '\n'
  }

  /** No string value in the store holds a newline. */
  predicate LineSafe(kv: Store)
  {
    forall k :: k in kv && kv[k].Scalar? ==> forall i :: 0 <= i < |kv[k].text| ==> kv[k].text[i] != '\n'
  }

  /** handle, as a function of the store: the reply and the store afterwards. Only a SET or a DEL
      with the right number of arguments touches the store, and only at its first argument. */
  function Dispatch(kv: Store, cmd: Command): (r: (string, Store))
    ensures |r.0| > 0 && r.0[|r.0| - 1] == '\n'
    ensures r.1 != kv ==> (cmd.name == "SET" && |cmd.args| == 2) || (cmd.name == "DEL" && |cmd.args| == 1)
    ensures forall k :: k in kv && (|cmd.args| == 0 || k != cmd.args[0]) ==> k in r.1 && r.1[k] == kv[k]
    ensures forall k :: k in r.1 ==> k in kv || (|cmd.args| > 0 && k == cmd.args[0])
  {
    if cmd.name == "SET" then
      if |cmd.args| != 2 then (ArityError("SET"), kv)
      else (OK_REPLY, SetKey(kv, cmd.args[0], cmd.args[1]))
    else if cmd.name == "GET" then
      if |cmd.args| != 1 then (ArityError("GET"), kv)
      else
        match GetKey(kv, cmd.args[0])
        case Some(v) => (v + "\n", kv)
        case None => (MISSING_REPLY, kv)
    else if cmd.name == "DEL" then
      if |cmd.args| != 1 then (ArityError("DEL"), kv)
      else (BoolText(cmd.args[0] in kv) + "\n", DelKey(kv, cmd.args[0]))
    else (UNKNOWN_REPLY, kv)
  }

  class CommandHandler {
    const storage: Storage

    constructor(storage: Storage)
      ensures this.storage == storage
    {
      this.storage := storage;
    }

    /** handle: the reply to one command, applied to the shared store. */
    method Handle(cmd: Command) returns (reply: string)
      modifies storage
      ensures (reply, storage.kv) == Dispatch(old(storage.kv), cmd)
    {
      if cmd.name == "SET" {
        if |cmd.args| != 2 {
          return ArityError("SET");
        }
        storage.Set(cmd.args[0], cmd.args[1]);
        return OK_REPLY;
      } else if cmd.name == "GET" {
        if |cmd.args| != 1 {
          return ArityError("GET");
        }
        var value := storage.Get(cmd.args[0]);
        if value.Some? {
          return value.value + "\n";
        } else {
          return MISSING_REPLY;
        }
      } else if cmd.name == "DEL" {
        if |cmd.args| != 1 {
          return ArityError("DEL");
        }
        var deleted := storage.Del(cmd.args[0]);
        return BoolText(deleted) + "\n";
      } else {
        return UNKNOWN_REPLY;
      }
    }
  }

  // ---------------------------------------------------------------------------
  // What the replies promise
  // ---------------------------------------------------------------------------

  /** SET k v answers OK, and a GET k right after it answers v, whatever k held before. */
  lemma SetThenGet(kv: Store, k: string, v: string)
    ensures Dispatch(kv, Command("SET", [k, v])).0 == OK_REPLY
    ensures Dispatch(Dispatch(kv, Command("SET", [k, v])).1, Command("GET", [k])) == (v + "\n", SetKey(kv, k, v))
  {
  }

  /** A wrong argument count for SET, GET or DEL is answered with the error naming the command, and the store is untouched. */
  lemma WrongArityRejected(kv: Store, cmd: Command)
    requires cmd.name in {"SET", "GET", "DEL"}
    requires |cmd.args| != (if cmd.name == "SET" then 2 else 1)
    ensures Dispatch(kv, cmd) == (ArityError(cmd.name), kv)
  {
  }

  /** GET answers the string stored under its key, or -1 when there is none; it never changes the store. */
  lemma GetAnswers(kv: Store, k: string)
    ensures Dispatch(kv, Command("GET", [k])).1 == kv
    ensures k in kv && kv[k].Scalar? ==> Dispatch(kv, Command("GET", [k])).0 == kv[k].text + "\n"
    ensures !(k in kv && kv[k].Scalar?) ==> Dispatch(kv, Command("GET", [k])).0 == MISSING_REPLY
  {
  }

  /** DEL answers 1 exactly when the key was there; afterwards the key is gone and nothing else changed. */
  lemma DelAnswers(kv: Store, k: string)
    ensures Dispatch(kv, Command("DEL", [k])).0 == (if k in kv then "1\n" else "0\n")
    ensures Dispatch(kv, Command("DEL", [k])).1 == DelKey(kv, k)
  {
  }

  /** Any other name, including a lower-case spelling of a known one, is unknown and changes nothing. */
  lemma UnknownRejected(kv: Store, cmd: Command)
    requires cmd.name !in {"SET", "GET", "DEL"}
    ensures Dispatch(kv, cmd) == (UNKNOWN_REPLY, kv)
  {
  }

  /** A text without newlines, with one newline added, is one line. */
  lemma LineOf(text: string)
    requires forall i :: 0 <= i < |text| ==> text[i] != '\n'
    ensures OneLine(text + "\n")
  {
    var line := text + "\n";
    forall i | 0 <= i < |line| - 1 ensures line[i] != '\n' {
      assert line[i] == text[i];
    }
  }

  /** Over a store without newlines in its strings, every reply is exactly one line. */
  lemma RepliesAreOneLine(kv: Store, cmd: Command)
    requires LineSafe(kv)
    ensures OneLine(Dispatch(kv, cmd).0)
  {
    if cmd.name == "SET" {
      if |cmd.args| != 2 {
        ArityErrorOneLine("SET");
      } else {
        LineOf("OK");
      }
    } else if cmd.name == "GET" {
      if |cmd.args| != 1 {
        ArityErrorOneLine("GET");
      } else if cmd.args[0] in kv && kv[cmd.args[0]].Scalar? {
        LineOf(kv[cmd.args[0]].text);
      } else {
        LineOf("-1");
      }
    } else if cmd.name == "DEL" {
      if |cmd.args| != 1 {
        ArityErrorOneLine("DEL");
      } else {
        LineOf(BoolText(cmd.args[0] in kv));
      }
    } else {
      LineOf("ERROR: unknown command");
    }
  }

  /** The wrong-arity reply for a known command name is one line. */
  lemma ArityErrorOneLine(name: string)
    requires name in {"SET", "GET", "DEL"}
    ensures OneLine(ArityError(name))
  {
    var text := "ERROR: wrong number of arguments for " + name + " command";
    LineOf(text);
    assert ArityError(name) == text + "\n";
  }

  /** Storing parsed tokens keeps the store free of newlines, so replies stay one line each. */
  lemma ParsedCommandsKeepLineSafe(kv: Store, cmd: Command)
    requires LineSafe(kv) && AllWords(cmd.args)
    ensures LineSafe(Dispatch(kv, cmd).1)
  {
    if cmd.name == "SET" && |cmd.args| == 2 {
      var v := cmd.args[1];
      assert IsWord(v);
      forall i | 0 <= i < |v| ensures v[i] != '\n' {
        assert !IsSpace(v[i]);
      }
    }
  }
}
