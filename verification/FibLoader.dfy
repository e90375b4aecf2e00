/** The slots and callbacks that move the loading state, as methods on the decoder's fields. */
module FibLoaderClass {
  import opened FibTables
  import opened FibLoading

  class FibLoader {
    var level: Level
    var sid: nat
    var curr: Config
    var labels: set<nat>
    ghost var signals: seq<Level>

    ghost function Abs(): Load
      reads this
    {
      Load(level, sid, curr, labels, signals)
    }

    constructor ()
      ensures Abs() == Start
    {
      level, sid, curr, labels, signals := 0, 0, NoConfig, {}, [];
    }

    method Emit(n: Level)
      modifies this
      ensures Abs() == Raise(old(Abs()), n)
    {
      level := n;
      signals := signals + [n];
    }

    /** _retrigger_timer_data_loaded_fast, after an entry was stored. */
    method Retrigger(c: Config, names: set<nat>)
      modifies this
      ensures Abs() == Step(Stored(c, names), old(Abs()))
    {
      curr, labels := c, names;
      if level >= 4 {
        Emit(5);
      }
    }

    /** _process_fast_audio_selection, as _process_Fig0 calls it. */
    method ProcessFastAudioSelection()
      modifies this
      ensures Abs() == Step(FigParsed, old(Abs()))
    {
      hide AudioOf, Lookup;
      if sid > 0 {
        var i := AudioOf(curr.s2, sid);
        if i < |curr.s2| && Known(curr.s1, curr.s2[i].value.content.subCh) {
          sid := 0;
          if level < 1 {
            Emit(1);
          }
        }
      }
    }

    /** _check_audio_data_completeness. */
    method CheckAudioDataCompleteness() returns (ok: bool)
      ensures ok <==> level == 2 && AudioComplete(curr, labels)
    {
      hide Lookup;
      if level != 2 {
        return false;
      }
      var found := false;
      for i := 0 to |curr.s2|
        invariant found <==> exists k :: 0 <= k < i && curr.s2[k].value.content.Audio?
        invariant forall k :: 0 <= k < i ==> Described(curr.s2[k], curr, labels)
      {
        var e := curr.s2[i];
        if e.value.content.Audio? {
          found := true;
          if !Described(e, curr, labels) {
            return false;
          }
        }
      }
      return found;
    }

    /** _slot_timer_data_consistency_check. */
    method SlotConsistency(packets: bool)
      modifies this
      ensures Abs() == Step(ConsistencyTimer(packets), old(Abs()))
    {
      hide AudioComplete;
      if level <= 2 {
        level := 2;
        var ok := CheckAudioDataCompleteness();
        if ok {
          Emit(3);
        }
      }
      if level == 3 && packets {
        Emit(4);
      }
    }

    /** _slot_timer_check_state_and_print_FIGs. */
    method SlotCheckState()
      modifies this
      ensures Abs() == Step(StateTimer, old(Abs()))
    {
      if level < 3 {
        Emit(3);
      }
      if level < 4 {
        Emit(4);
      }
    }

    /** set_SId_for_fast_audio_selection. */
    method SetSId(n: nat)
      modifies this
      ensures Abs() == Step(Select(n), old(Abs()))
    {
      sid := if level >= 3 then 0 else n;
    }

    /** The tables are cleared and _reset is called. */
    method ResetAll()
      modifies this
      ensures Abs() == Step(Reset, old(Abs()))
    {
      level, curr, labels, signals := 0, NoConfig, {}, [];
    }
  }
}
