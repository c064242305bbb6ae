/** The board's task store: actions that replace the task list, and roll back if the server refuses. */
module TaskStores {
  import opened Sorting
  import opened TaskOrder
  import opened TaskTree
  import opened Text

  class TaskStore {
    var tasks: seq<Task>
    var isSynced: bool

    constructor (tasks: seq<Task>)
      ensures this.tasks == tasks && isSynced
    {
      this.tasks := tasks;
      isSynced := true;
    }

    /** Deletes a task with its subtree; if the server refuses, the previous list comes back. */
    method DeleteTask(id: string, serverAccepts: bool)
      requires AcyclicBelow(tasks, id)
      modifies this
      ensures serverAccepts ==>
                && tasks == Surviving(old(tasks), {id} + DescendantSet(old(tasks), id))
                && isSynced == old(isSynced)
      ensures !serverAccepts ==> tasks == old(tasks) && !isSynced
    {
      var previousTasks := tasks;
      var below := GetDescendantIds(tasks, id);
      var toDelete := {id} + set x <- below;
      forall x
        ensures x in below <==> x in DescendantSet(tasks, id)
      {
        DescendantsListed(tasks, id, x);
        DescendantsAreTasks(tasks, id, x);
      }
      assert toDelete == {id} + DescendantSet(tasks, id);
      tasks := Surviving(tasks, toDelete);
      if !serverAccepts {
        tasks := previousTasks;
        isSynced := false;
      }
    }

    /** Moves a task to a new place among its active siblings. */
    method ReorderTask(taskId: string, newIndex: int, serverAccepts: bool)
      modifies this
      ensures match Reordered(old(tasks), taskId, newIndex)
              case None => tasks == old(tasks) && isSynced == old(isSynced)
              case Some(list) =>
                if serverAccepts then tasks == Renumbered(old(tasks), list) && isSynced == old(isSynced)
                else tasks == old(tasks) && !isSynced
    {
      hide Filter, SortDescending, Renumbered;
      var previous := tasks;
      var found := IndexOf(tasks, taskId);
      if found.None? {
        return;
      }
      IndexInRange(tasks, taskId);
      var siblings := SortDescending(Filter(tasks, tasks[found.value].parentId), Key);
      var oldIndex := IndexOf(siblings, taskId);
      if oldIndex.None? || oldIndex.value == newIndex {
        return;
      }
      IndexInRange(siblings, taskId);
      var moved := siblings[oldIndex.value];
      var reordered := siblings[..oldIndex.value] + siblings[oldIndex.value + 1..];
      var at := SpliceIndex(|reordered|, newIndex);
      reordered := reordered[..at] + [moved] + reordered[at..];
      tasks := Renumbered(tasks, reordered);
      if !serverAccepts {
        tasks := previous;
        isSynced := false;
      }
    }
  }
}
