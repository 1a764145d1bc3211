/**
 * The command registry: commands are kept in a map from name to command;
 * registering a command under a name it already has replaces the old one,
 * and listing them all yields each registered command once, in no
 * particular order.
 */
module Registry {
  import opened Wrappers

  /** A command as the registry sees it: its name and its one-line description. */
  datatype Command = Command(name: string, description: string)

  const SortByDateCommand := Command("sortbydate", "Sort files into directories based on their creation date")
  const BulkRenameCommand := Command("bulkrename", "Bulk rename files based on a pattern")
  const SortByTypeCommand := Command("sortbytype", "Sort files into directories based on their file type/extension")
  const SortBySizeCommand := Command("sortbysize", "Sort files into directories based on their size (small, medium, large)")
  const ListCommand := Command("list", "List files with various sorting options")

  class CommandRegistry {
    var commands: map<string, Command>

    /** Every command is filed under its own name. */
    ghost predicate Valid()
      reads this
    {
      forall name :: name in commands ==> commands[name].name == name
    }

    /** An empty registry. */
    constructor ()
      ensures commands == map[]
      ensures Valid()
    {
      commands := map[];
    }

    /** Files cmd under its name, replacing any command registered under that name before. */
    method Register(cmd: Command)
      requires Valid()
      modifies this
      ensures Valid()
      ensures commands == old(commands)[cmd.name := cmd]
    {
      commands := commands[cmd.name := cmd];
    }

    /** The command registered under name, if there is one. */
    method Get(name: string) returns (r: Option<Command>)
      requires Valid()
      ensures r.Some? <==> name in commands
      ensures r.Some? ==> r.value == commands[name] && r.value.name == name
    {
      if name in commands {
        r := Some(commands[name]);
      } else {
        r := None;
      }
    }

    /** Every registered command exactly once, in an unspecified order. */
    method GetAll() returns (cmds: seq<Command>)
      requires Valid()
      ensures |cmds| == |commands|
      ensures forall name :: name in commands ==> commands[name] in cmds
      ensures forall i :: 0 <= i < |cmds| ==> cmds[i].name in commands && commands[cmds[i].name] == cmds[i]
      ensures forall i, j :: 0 <= i < j < |cmds| ==> cmds[i].name != cmds[j].name
    {
      cmds := [];
      var remaining := commands.Keys;
      while remaining != {}
        invariant remaining <= commands.Keys
        invariant |cmds| + |remaining| == |commands|
        invariant forall name :: name in commands && name !in remaining ==> commands[name] in cmds
        invariant forall i :: 0 <= i < |cmds| ==> cmds[i].name in commands && cmds[i].name !in remaining
        invariant forall i :: 0 <= i < |cmds| ==> commands[cmds[i].name] == cmds[i]
        invariant forall i, j :: 0 <= i < j < |cmds| ==> cmds[i].name != cmds[j].name
        decreases |remaining|
      {
        var name :| name in remaining;
        cmds := cmds + [commands[name]];
        remaining := remaining - {name};
      }
    }
  }

  /** The registry the program builds at start-up: its five commands, registered one after another. */
  method NewDefaultRegistry() returns (registry: CommandRegistry)
    ensures fresh(registry) && registry.Valid()
    ensures registry.commands == map[
      SortByDateCommand.name := SortByDateCommand, BulkRenameCommand.name := BulkRenameCommand,
      SortByTypeCommand.name := SortByTypeCommand, SortBySizeCommand.name := SortBySizeCommand,
      ListCommand.name := ListCommand]
    ensures |registry.commands| == 5
  {
    registry := new CommandRegistry();
    registry.Register(SortByDateCommand);
    registry.Register(BulkRenameCommand);
    registry.Register(SortByTypeCommand);
    registry.Register(SortBySizeCommand);
    registry.Register(ListCommand);
  }
}
