/**
 * The Workflow container of src/program/workflow.rs: the record of configuration, optional
 * seeded memory, tasks, steps (edges) and return value, with positional and first-match lookups
 * and an in-place update of the first task with a given id.
 *
 * Config, TaskOutput and the parts of Task and Edge other than `id` and `source` are defined
 * outside this file; they stay abstract here.
 */
module Workflows {
  import opened Wrappers
  import opened MemoryTypes

  /** The execution configuration; its fields are not part of this model. */
  type Config

  /** The designation of the workflow's result; its fields are not part of this model. */
  type TaskOutput

  /** Everything a task holds besides its id. */
  type TaskBody

  /** Everything an edge holds besides its source task id. */
  type EdgeBody

  datatype Task = Task(id: ID, body: TaskBody)

  datatype Edge = Edge(source: ID, body: EdgeBody)

  /**
   * The position of the first element of s that satisfies p, scanning in stored order,
   * or None when no element does.
   */
  function FindFirst<T>(s: seq<T>, p: T -> bool): (k: Option<nat>)
    ensures k.Some? ==> k.value < |s| && p(s[k.value])
    ensures k.Some? ==> forall j :: 0 <= j < k.value ==> !p(s[j])
    ensures k.None? <==> forall j :: 0 <= j < |s| ==> !p(s[j])
  {
    if s == [] then None
    else if p(s[0]) then Some(0)
    else
      match FindFirst(s[1..], p)
      case None => None
      case Some(k) => Some(k + 1)
  }

  class Workflow {
    const config: Config
    var externalMemory: Option<map<ID, MemoryInputType>>
    var tasks: seq<Task>
    const steps: seq<Edge>
    const returnValue: TaskOutput

    /** Builds the record from its parts, with no validation. */
    constructor (tasks: seq<Task>, steps: seq<Edge>, config: Config,
                 externalMemory: Option<map<ID, MemoryInputType>>, returnValue: TaskOutput)
      ensures this.tasks == tasks && this.steps == steps && this.config == config
      ensures this.externalMemory == externalMemory && this.returnValue == returnValue
    {
      this.config := config;
      this.externalMemory := externalMemory;
      this.tasks := tasks;
      this.steps := steps;
      this.returnValue := returnValue;
    }

    /** The step at a position, or None when the position is past the end. */
    function GetStep(index: nat): (r: Option<Edge>)
      ensures r.Some? <==> index < |steps|
      ensures r.Some? ==> r.value == steps[index]
    {
      if index < |steps| then Some(steps[index]) else None
    }

    /** The first step, in stored order, whose source is the given task id. */
    function GetStepById(taskId: ID): (r: Option<Edge>)
      ensures r.None? <==> forall j :: 0 <= j < |steps| ==> steps[j].source != taskId
      ensures r.Some? ==> r.value.source == taskId
      ensures r.Some? ==> exists k :: (0 <= k < |steps| && steps[k] == r.value &&
                                       forall j :: 0 <= j < k ==> steps[j].source != taskId)
    {
      match FindFirst(steps, (e: Edge) => e.source == taskId)
      case None => None
      case Some(k) => Some(steps[k])
    }

    /** The first task, in stored order, with the given id. */
    function GetTasksById(taskId: ID): (r: Option<Task>)
      reads this
      ensures r.None? <==> forall j :: 0 <= j < |tasks| ==> tasks[j].id != taskId
      ensures r.Some? ==> r.value.id == taskId
      ensures r.Some? ==> exists k :: (0 <= k < |tasks| && tasks[k] == r.value &&
                                       forall j :: 0 <= j < k ==> tasks[j].id != taskId)
    {
      match FindFirst(tasks, (t: Task) => t.id == taskId)
      case None => None
      case Some(k) => Some(tasks[k])
    }

    /**
     * Mutable access to the whole task list: whatever the caller stores becomes the task list,
     * and nothing else in the workflow changes.
     */
    method SetTasks(newTasks: seq<Task>)
      modifies this`tasks
      ensures tasks == newTasks
      ensures externalMemory == old(externalMemory)
    {
      tasks := newTasks;
    }

    /**
     * Mutable lookup by id: scans the tasks in stored order for the first one with the given
     * id and applies the caller's edit to that task in place. Returns the position edited, or
     * None (and changes nothing) when no task has the id. Only that one task changes.
     */
    method UpdateTaskById(taskId: ID, edit: Task -> Task) returns (found: Option<nat>)
      modifies this`tasks
      ensures found.Some? ==> found.value < |old(tasks)| && old(tasks)[found.value].id == taskId
      ensures found.Some? ==> forall j :: 0 <= j < found.value ==> old(tasks)[j].id != taskId
      ensures found.None? <==> forall j :: 0 <= j < |old(tasks)| ==> old(tasks)[j].id != taskId
      ensures found.Some? ==> tasks == old(tasks)[found.value := edit(old(tasks)[found.value])]
      ensures found.None? ==> tasks == old(tasks)
      ensures externalMemory == old(externalMemory)
      ensures found.Some? && tasks[found.value].id == taskId ==>
        GetTasksById(taskId) == Some(tasks[found.value])
    {
      var i := 0;
      while i < |tasks| && tasks[i].id != taskId
        invariant 0 <= i <= |tasks|
        invariant forall j :: 0 <= j < i ==> tasks[j].id != taskId
      {
        i := i + 1;
      }
      if i < |tasks| {
        tasks := tasks[i := edit(tasks[i])];
        found := Some(i);
      } else {
        found := None;
      }
    }
  }
}
