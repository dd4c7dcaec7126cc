/** The program's entry point: take the banlist path from the command line,
    load the banset from that file, then filter standard input.

    The outside world is passed in as values: `args` is the process's
    argument vector (the program name first), `files` maps each readable
    path to the lines of its contents, and `stdin` is the sequence of lines
    read from standard input. */
module Cli {
  import opened Text
  import opened Banlist
  import opened Stream

  datatype Error =
    | MissingBanlist           // no argument after the program name
    | ReadFailed(path: string)  // the banlist file could not be read

  datatype Exit = Success | Failure(error: Error)

  /** The whole run. A missing argument or an unreadable banlist stops the
      program before any input line is read, with nothing written; otherwise
      the output is the filter applied to all of standard input. */
  method Run(args: seq<string>, files: map<string, seq<string>>, stdin: seq<string>)
    returns (stdout: seq<string>, exit: Exit)
    ensures exit == Failure(MissingBanlist) <==> |args| < 2
    ensures exit.Failure? ==> stdout == []
    ensures |args| >= 2 ==>
      if args[1] in files
      then exit == Success && stdout == Emitted(LoadBanSet(files[args[1]]), stdin)
      else exit == Failure(ReadFailed(args[1]))
  {
    if |args| < 2 {
      return [], Failure(MissingBanlist);
    }
    var banPath := args[1];
    if banPath !in files {
      return [], Failure(ReadFailed(banPath));
    }
    var banset := LoadBanSet(files[banPath]);
    stdout := FilterStream(banset, stdin);
    exit := Success;
  }

  /** What the ban-only filter does, in terms of the two inputs alone: an
      input line's trimmed form is written exactly when no line of the
      banlist trims to the same string. */
  lemma BanOnlyFilter(banlist: seq<string>, stdin: seq<string>)
    ensures forall i :: 0 <= i < |stdin| ==>
      (Trim(stdin[i]) in Emitted(LoadBanSet(banlist), stdin) <==>
       forall j :: 0 <= j < |banlist| ==> Trim(banlist[j]) != Trim(stdin[i]))
  {
    var banset := LoadBanSet(banlist);
    EmittedComplete(banset, stdin);
    forall i | 0 <= i < |stdin|
      ensures Trim(stdin[i]) in banset <==> exists j :: 0 <= j < |banlist| && Trim(banlist[j]) == Trim(stdin[i])
    {
      if Trim(stdin[i]) in banset {
        var l :| l in banlist && Trim(l) == Trim(stdin[i]);
        var j :| 0 <= j < |banlist| && banlist[j] == l;
      }
    }
  }

  /** The banset of the example below. */
  lemma HelloworldBanset()
    ensures LoadBanSet(["Helloworld\r"]) == {"Helloworld"}
  {
    assert [] + "Helloworld" + "\r" == "Helloworld\r";
    TrimUnique([], "Helloworld", "\r");
  }

  /** The trimmed input lines of the example below. */
  lemma HelloworldInput()
    ensures TrimAll(["not just Helloworld\n", "  Helloworld\n"]) == ["not just Helloworld", "Helloworld"]
  {
    assert Trim("not just Helloworld\n") == "not just Helloworld" by {
      assert [] + "not just Helloworld" + "\n" == "not just Helloworld\n";
      TrimUnique([], "not just Helloworld", "\n");
    }
    assert Trim("  Helloworld\n") == "Helloworld" by {
      assert "  " + "Helloworld" + "\n" == "  Helloworld\n";
      TrimUnique("  ", "Helloworld", "\n");
    }
  }

  /** A banlist holding "Helloworld": an input line equal to it, even with
      surrounding whitespace, is dropped, while a line that merely contains
      it is written, trimmed. */
  lemma HelloworldExample()
    ensures Emitted(LoadBanSet(["Helloworld\r"]), ["not just Helloworld\n", "  Helloworld\n"])
         == ["not just Helloworld"]
  {
    HelloworldBanset();
    HelloworldInput();
    var banset: set<string> := {"Helloworld"};
    UnbannedSnoc(banset, [], "not just Helloworld");
    UnbannedSnoc(banset, ["not just Helloworld"], "Helloworld");
    assert [] + ["not just Helloworld"] == ["not just Helloworld"];
    assert ["not just Helloworld"] + ["Helloworld"] == ["not just Helloworld", "Helloworld"];
  }
}
