/** The record-to-map step of the printer: the decoded list of process records is
    folded into a map from process name to the pair [pid, parentPid]. */
module ParserStringToJSON {

  datatype Option<T> = None | Some(value: T)

  /** One decoded element of the input array: its `process_name`, `pid` and
      `parent_pid` fields, where None stands for a JSON null or a missing field. */
  datatype Process = Process(processName: string, pid: Option<int>, parentPid: Option<int>)

  /** The two-element list [pid, parentPid] that the map holds for a process name. */
  datatype Entry = Entry(pid: int, parentPid: int)

  /** The value a primitive `int` field holds after decoding: a null or missing
      JSON value leaves the field at its default, 0. */
  function IntField(v: Option<int>): int {
    match v
    case None => 0
    case Some(x) => x
  }

  /** The map entry for one record; a null parent becomes the root sentinel 0. */
  function ToEntry(process: Process): (e: Entry)
    ensures e.parentPid == 0 <==> process.parentPid == None || process.parentPid == Some(0)
    ensures e.pid == 0 <==> process.pid == None || process.pid == Some(0)
  {
    Entry(IntField(process.pid), IntField(process.parentPid))
  }

  /** The map the parse loop builds from `processes`: one put per record, in order. */
  function RecordMap(processes: seq<Process>): map<string, Entry> {
    if processes == [] then map[]
    else
      var last := processes[|processes| - 1];
      RecordMap(processes[..|processes| - 1])[last.processName := ToEntry(last)]
  }

  /** The map has an entry for exactly the names that occur among the records, and
      the entry of a name is made from the last record that carries that name. */
  lemma {:induction false} RecordMapLastWins(processes: seq<Process>, name: string)
    ensures name in RecordMap(processes) <==>
              exists k :: 0 <= k < |processes| && processes[k].processName == name
    ensures name in RecordMap(processes) ==>
              exists k :: 0 <= k < |processes| && processes[k].processName == name
                && RecordMap(processes)[name] == ToEntry(processes[k])
                && forall j :: k < j < |processes| ==> processes[j].processName != name
  {
    if processes != [] {
      var n := |processes| - 1;
      var init := processes[..n];
      RecordMapLastWins(init, name);
      if processes[n].processName != name {
        forall k | 0 <= k < |processes| && processes[k].processName == name
          ensures exists k' :: 0 <= k' < |init| && init[k'].processName == name
        {
          assert k < n && init[k] == processes[k];
        }
        if name in RecordMap(init) {
          var k :| 0 <= k < |init| && init[k].processName == name
                   && RecordMap(init)[name] == ToEntry(init[k])
                   && forall j :: k < j < |init| ==> init[j].processName != name;
          assert processes[k] == init[k];
          forall j | k < j < |processes| ensures processes[j].processName != name {
            if j < n { assert processes[j] == init[j]; }
          }
        }
      }
    }
  }

  /** `ParserStringToJSON.parse(String)` after decoding: every record is put into a
      fresh map under its name, so a later record replaces an earlier one. */
  method Parse(processes: seq<Process>) returns (processToParentPid: map<string, Entry>)
    ensures processToParentPid == RecordMap(processes)
  {
    processToParentPid := map[];
    for i := 0 to |processes|
      invariant processToParentPid == RecordMap(processes[..i])
    {
      var process := processes[i];
      assert processes[..i + 1][..i] == processes[..i];
      processToParentPid := processToParentPid[process.processName := ToEntry(process)];
    }
    assert processes[..|processes|] == processes;
  }
}
