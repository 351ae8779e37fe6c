/**
 * The section registry of one import: a table from section name to the
 * remote identifier of the section, filled in while the task list is
 * walked. Both handlers write it the same way, `table[name] = id`, so a
 * later section of the same name overwrites an earlier one.
 */
module SectionRegistry {
  import opened Js
  import opened Domain

  type Registry = map<string, JsVal>

  /** What one task leaves in the registry: the identifier it stores under
      its name, or `None` when it stores nothing. */
  datatype Entry = Entry(name: string, write: Option<JsVal>)

  predicate Writes(e: Entry, name: string) {
    e.name == name && e.write.Some?
  }

  /** `table[key]` on a plain object used as a dictionary. */
  function Lookup(reg: Registry, key: string): JsVal {
    if key in reg then reg[key] else Undefined
  }

  function Write(reg: Registry, e: Entry): Registry {
    if e.write.Some? then reg[e.name := e.write.value] else reg
  }

  /** The registry after the given entries, applied left to right. */
  function Replay(entries: seq<Entry>): Registry
    decreases |entries|
  {
    if entries == [] then map[]
    else Write(Replay(entries[..|entries| - 1]), entries[|entries| - 1])
  }

  /** One more entry is one more write. */
  lemma ReplayStep(es: seq<Entry>, i: nat)
    requires i < |es|
    ensures Replay(es[..i + 1]) == Write(Replay(es[..i]), es[i])
  {
    assert es[..i + 1][..i] == es[..i];
  }

  /** The entries of a task list, given what each task writes for the
      outcome of its own remote call. */
  function Entries(tasks: seq<Task>, reply: nat -> Outcome,
                   written: (Task, Outcome) -> Option<JsVal>): seq<Entry>
  {
    seq(|tasks|, i requires 0 <= i < |tasks| => Entry(tasks[i].name, written(tasks[i], reply(i))))
  }

  /** Last write wins: a name is registered exactly when some entry wrote
      it, and then it maps to what the LAST such entry wrote. */
  lemma {:induction false} ReplayIsLastWrite(entries: seq<Entry>, name: string)
    decreases |entries|
    ensures name in Replay(entries) <==>
              exists j :: 0 <= j < |entries| && Writes(entries[j], name)
    ensures name in Replay(entries) ==>
              exists j :: 0 <= j < |entries| && Writes(entries[j], name) &&
                Replay(entries)[name] == entries[j].write.value &&
                (forall k :: j < k < |entries| ==> !Writes(entries[k], name))
  {
    if entries != [] {
      var n := |entries| - 1;
      var front := entries[..n];
      ReplayIsLastWrite(front, name);
      assert forall j :: 0 <= j < n ==> front[j] == entries[j];
      if Writes(entries[n], name) {
        assert Replay(entries)[name] == entries[n].write.value;
      } else if name in Replay(entries) {
        var j :| 0 <= j < n && Writes(front[j], name) &&
                 Replay(front)[name] == front[j].write.value &&
                 (forall k :: j < k < n ==> !Writes(front[k], name));
        assert Replay(entries)[name] == entries[j].write.value;
      }
    }
  }

  /** When every write stores a truthy identifier, every registered name
      maps to a truthy identifier, so the handlers' truthiness test on
      `table[name]` is exactly a membership test. */
  lemma RegisteredIdsTruthy(entries: seq<Entry>, name: string)
    requires forall j :: 0 <= j < |entries| && entries[j].write.Some? ==>
               Truthy(entries[j].write.value)
    ensures Truthy(Lookup(Replay(entries), name)) <==> name in Replay(entries)
  {
    ReplayIsLastWrite(entries, name);
  }
}
