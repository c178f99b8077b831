/** The positional-argument check of `ipa-replica-manage`: the first
    argument names a command of the command table and the number of the
    remaining arguments lies within that command's bounds. Option flags are
    parsed by the option parser and are not part of this model. */
module Cli {
  import opened Basics
  import opened Text

  /** One row of the command table: the least and the greatest number of
      arguments after the command, the usage text and the message shown when
      too few arguments are given. */
  datatype Command = Command(name: string, least: nat, most: nat, usage: string, missing: string)

  /** The command table, in its declaration order (which is also the order
      `" | ".join(commands.keys())` lists it in). */
  const Commands: seq<Command> := [
    Command("list", 0, 1, "[master fqdn]", ""),
    Command("list-ruv", 0, 0, "", ""),
    Command("connect", 1, 2, "<master fqdn> [other master fqdn]",
            "must provide the name of the servers to connect"),
    Command("disconnect", 1, 2, "<master fqdn> [other master fqdn]",
            "must provide the name of the server to disconnect"),
    Command("del", 1, 1, "<master fqdn>", "must provide hostname of master to delete"),
    Command("re-initialize", 0, 0, "", ""),
    Command("force-sync", 0, 0, "", ""),
    Command("clean-ruv", 1, 1, "Replica ID of to clean", "must provide replica ID to clean"),
    Command("abort-clean-ruv", 1, 1, "Replica ID to abort cleaning", "must provide replica ID to abort cleaning"),
    Command("list-clean-ruv", 0, 0, "", ""),
    Command("clean-dangling-ruv", 0, 0, "", ""),
    Command("dnarange-show", 0, 1, "[master fqdn]", ""),
    Command("dnanextrange-show", 0, 1, "", ""),
    Command("dnarange-set", 2, 2, "<master fqdn> <range>", "must provide a master and ID range"),
    Command("dnanextrange-set", 2, 2, "<master fqdn> <range>", "must provide a master and ID range")
  ]

  /** A well-formed table: distinct names, bounds in order, and a message
      for every command that needs an argument. */
  predicate WellFormed(table: seq<Command>) {
    && (forall i, j :: 0 <= i < j < |table| ==> table[i].name != table[j].name)
    && (forall i :: 0 <= i < |table| ==> table[i].least <= table[i].most)
    && (forall i :: 0 <= i < |table| && table[i].least > 0 ==> table[i].missing != "")
  }

  lemma CommandsWellFormed()
    ensures WellFormed(Commands)
  {
    NamesDistinct();
    assert forall i :: 0 <= i < |Commands| ==> Commands[i].least <= Commands[i].most;
    assert forall i :: 0 <= i < |Commands| && Commands[i].least > 0 ==> Commands[i].missing != "";
  }

  /** No two commands share a name (no two even share both their length
      and their first letter). */
  lemma NamesDistinct()
    ensures forall i, j :: 0 <= i < j < |Commands| ==> Commands[i].name != Commands[j].name
  {
    forall i, j | 0 <= i < j < |Commands|
      ensures Commands[i].name != Commands[j].name
    {
      assert |Commands[i].name| != |Commands[j].name| || Commands[i].name[0] != Commands[j].name[0];
    }
  }

  /** The table row of the command `name`, if any. */
  function Lookup(table: seq<Command>, name: string): (r: Option<Command>)
    ensures r.Some? <==> exists i :: 0 <= i < |table| && table[i].name == name
    ensures r.Some? ==> r.value in table && r.value.name == name
  {
    if |table| == 0 then None
    else if table[0].name == name then Some(table[0])
    else
      var r := Lookup(table[1..], name);
      assert forall i :: 0 <= i < |table| - 1 ==> table[1..][i] == table[i + 1];
      r
  }

  function Names(table: seq<Command>): (r: seq<string>)
    ensures |r| == |table|
    ensures forall i :: 0 <= i < |table| ==> r[i] == table[i].name
  {
    if |table| == 0 then [] else [table[0].name] + Names(table[1..])
  }

  /** The error text for `n` arguments after command `c`: its own message
      when too few are given, "too many arguments" when too many, "" when
      the count is accepted. An empty message counts as no error. */
  function ArityError(c: Command, n: int): string {
    if n < c.least then c.missing
    else if n > c.most then "too many arguments"
    else ""
  }

  /** The message `parser.error` is given when the arguments are rejected. */
  function Complaint(table: seq<Command>, args: seq<string>): string {
    var known := if |args| > 0 then Lookup(table, args[0]) else None;
    if known.Some? && ArityError(known.value, |args| - 1) != "" then
      "Invalid syntax: " + ArityError(known.value, |args| - 1) + "\nUsage: " + known.value.name + " [options] " + known.value.usage
    else
      "must provide a command [" + Join(Names(table), " | ") + "]"
  }

  /** The arguments name a known command and carry an accepted number of
      arguments after it. */
  predicate Accepted(table: seq<Command>, args: seq<string>) {
    |args| > 0 && Lookup(table, args[0]).Some? &&
    Lookup(table, args[0]).value.least <= |args| - 1 <= Lookup(table, args[0]).value.most
  }

  /** The check of `parse_options` over a table: walk the table, compare
      every name with the first argument, and stop at the first error. */
  method ParseArguments(table: seq<Command>, args: seq<string>) returns (r: Result<seq<string>, string>)
    requires forall i, j :: 0 <= i < j < |table| ==> table[i].name != table[j].name
    ensures r.Ok? <==> Accepted(table, args)
    ensures r.Ok? ==> r.value == args
    ensures r.Err? ==> r.error == Complaint(table, args)
  {
    var valid := false;
    if |args| > 0 {
      var n := |args| - 1;
      var i := 0;
      while i < |table|
        invariant 0 <= i <= |table|
        invariant valid <==> exists k :: 0 <= k < i && table[k].name == args[0] &&
                                         table[k].least <= n <= table[k].most
        invariant forall k :: 0 <= k < i && table[k].name == args[0] ==> ArityError(table[k], n) == ""
      {
        var v := table[i];
        if v.name == args[0] {
          var err := "";
          if n < v.least {
            err := v.missing;
          } else if n > v.most {
            err := "too many arguments";
          } else {
            valid := true;
          }
          assert err == ArityError(v, n);
          if err != "" {
            LookupUnique(table, i);
            return Err("Invalid syntax: " + err + "\nUsage: " + v.name + " [options] " + v.usage);
          }
        }
        i := i + 1;
      }
      if valid {
        var k :| 0 <= k < |table| && table[k].name == args[0] && table[k].least <= n <= table[k].most;
        LookupUnique(table, k);
      } else if Lookup(table, args[0]).Some? {
        var k :| 0 <= k < |table| && table[k].name == args[0];
        LookupUnique(table, k);
      }
    }
    if !valid {
      return Err("must provide a command [" + Join(Names(table), " | ") + "]");
    }
    r := Ok(args);
  }

  /** With distinct names, the row found for a name is the one at its
      position. */
  lemma {:induction false} LookupUnique(table: seq<Command>, k: nat)
    requires k < |table|
    requires forall i, j :: 0 <= i < j < |table| ==> table[i].name != table[j].name
    ensures Lookup(table, table[k].name) == Some(table[k])
  {
    if k > 0 {
      assert table[0].name != table[k].name;
      var t := table[1..];
      assert t[k - 1] == table[k];
      LookupUnique(t, k - 1);
    }
  }

  /** `parse_options` on the positional arguments. */
  method ParseOptions(args: seq<string>) returns (r: Result<seq<string>, string>)
    ensures r.Ok? <==> Accepted(Commands, args)
    ensures r.Ok? ==> r.value == args
    ensures r.Err? ==> r.error == Complaint(Commands, args)
  {
    CommandsWellFormed();
    r := ParseArguments(Commands, args);
  }

  /** Over a well-formed table, every rejection of a known command names
      the bound that was missed; only an unknown command (or none) falls back
      to the list of commands. */
  lemma ComplaintNamesTheCommand(table: seq<Command>, args: seq<string>)
    requires WellFormed(table)
    requires |args| > 0 && Lookup(table, args[0]).Some? && !Accepted(table, args)
    ensures var c := Lookup(table, args[0]).value;
      Complaint(table, args) == "Invalid syntax: " + (if |args| - 1 < c.least then c.missing else "too many arguments") +
                                "\nUsage: " + c.name + " [options] " + c.usage
  {
    var c := Lookup(table, args[0]).value;
    var i :| 0 <= i < |table| && table[i] == c;
    assert ArityError(c, |args| - 1) != "";
  }
}
