/** Command-name lookup of the client: the first argument is matched against
    the fixed list of sub-commands. */
module Commands {

  /** The sub-commands, in the order they are searched. */
  const VALID_COMMANDS: seq<string> :=
    ["eject", "mount", "umount", "attach", "arbitrate", "list", "info"]

  /** The linear search of parseCommand over a list of commands: the first
      entry equal to the argument, or "" when none is. */
  function FindCommand(commands: seq<string>, arg: string): (r: string)
    ensures arg in commands ==> r == arg
    ensures arg !in commands ==> r == ""
  {
    if commands == [] then ""
    else if commands[0] == arg then commands[0]
    else FindCommand(commands[1..], arg)
  }

  /** parseCommand. */
  function ParseCommand(arg: string): (r: string)
    ensures r == "" || r in VALID_COMMANDS
  {
    FindCommand(VALID_COMMANDS, arg)
  }

  /** A command is recognised exactly when it is one of the seven listed
      sub-commands, and it is then returned unchanged; every other argument
      gives "". */
  lemma ParseCommandRecognises(arg: string)
    ensures ParseCommand(arg) != "" <==> arg in VALID_COMMANDS
    ensures arg in VALID_COMMANDS ==> ParseCommand(arg) == arg
    ensures arg !in VALID_COMMANDS ==> ParseCommand(arg) == ""
  {
  }

  /** The help flags are not commands. */
  lemma HelpIsNotACommand()
    ensures ParseCommand("-h") == ""
    ensures ParseCommand("--help") == ""
  {
    assert "-h" !in VALID_COMMANDS;
    assert "--help" !in VALID_COMMANDS;
  }

  /** Looking up a looked-up command changes nothing. */
  lemma ParseCommandIdempotent(arg: string)
    ensures ParseCommand(ParseCommand(arg)) == ParseCommand(arg)
  {
    assert "" !in VALID_COMMANDS;
  }
}
