/**
  The publishing script: every command-line argument is cut down to its file
  name, and for each name one `mv` command line is built that moves
  `_drafts/<name>` to `_posts/<stamp>-<name>`, where the stamp is the date
  prefix of `Dates`. The command line is echoed and then cut on single spaces
  into the argument vector of the external `mv` program. The date is a
  parameter here rather than a clock reading; the command builders take it
  already formatted.
 */
module Publisher {
  import Text
  import Paths
  import Dates

  /** What one call of `cmd` does: the line it echoes and the argument vector it runs. */
  datatype Invocation = Invocation(echo: string, argv: seq<string>)

  /** Spaces in a line of three parts joined by single spaces. */
  lemma SpacesBetween(first: string, second: string, third: string)
    ensures Text.Occurrences(first + " " + second + " " + third, ' ')
         == 2 + Text.Occurrences(first, ' ') + Text.Occurrences(second, ' ') + Text.Occurrences(third, ' ')
  {
    Text.OccurrencesConcat(first, " ", ' ');
    Text.OccurrencesConcat(first + " ", second, ' ');
    Text.OccurrencesConcat(first + " " + second, " ", ' ');
    Text.OccurrencesConcat(first + " " + second + " ", third, ' ');
  }

  /** Spaces in a path built from a space-free front part and a name. */
  lemma SpacesInPath(front: string, name: string)
    requires ' ' !in front
    ensures Text.Occurrences(front + name, ' ') == Text.Occurrences(name, ' ')
  {
    Text.NotInOccurrences(front, ' ');
    Text.OccurrencesConcat(front, name, ' ');
  }

  /** The source path: the name under `_drafts/`. */
  function Source(name: string): string {
    "_drafts/" + name
  }

  /** The destination path: the stamp, '-' and the name under `_posts/`. */
  function Target(name: string, stamp: string): string {
    "_posts/" + stamp + "-" + name
  }

  /**
    `f'mv _drafts/{p} _posts/{stamp}-{p}'`: both the source and the
    destination are built from the same name. The line holds two spaces of its
    own, two more for every space in the name and one for every space in the
    stamp.
   */
  function MoveCommand(name: string, stamp: string): (command: string)
    ensures Text.Occurrences(command, ' ')
         == 2 + 2 * Text.Occurrences(name, ' ') + Text.Occurrences(stamp, ' ')
  {
    LineSpaces(name, stamp);
    "mv " + Source(name) + " " + Target(name, stamp)
  }

  lemma LineSpaces(name: string, stamp: string)
    ensures Text.Occurrences("mv " + Source(name) + " " + Target(name, stamp), ' ')
         == 2 + 2 * Text.Occurrences(name, ' ') + Text.Occurrences(stamp, ' ')
  {
    SpacesInPath("_drafts/", name);
    Text.OccurrencesConcat("_posts/", stamp, ' ');
    Text.OccurrencesConcat("_posts/" + stamp, "-", ' ');
    Text.OccurrencesConcat("_posts/" + stamp + "-", name, ' ');
    SpacesBetween("mv", Source(name), Target(name, stamp));
    assert Text.Occurrences("mv", ' ') == 0;
    assert "mv " == "mv" + " ";
  }

  /** A name without spaces gives exactly the three intended tokens. */
  lemma CommandTokens(name: string, stamp: string)
    requires ' ' !in name && ' ' !in stamp
    ensures Text.Split(MoveCommand(name, stamp), ' ') == ["mv", Source(name), Target(name, stamp)]
  {
    var tokens := ["mv", Source(name), Target(name, stamp)];
    assert ' ' !in Target(name, stamp);
    Text.JoinCons(Source(name), [Target(name, stamp)], ' ');
    Text.JoinCons("mv", [Source(name), Target(name, stamp)], ' ');
    assert Text.Join(tokens, ' ') == MoveCommand(name, stamp);
    Text.SplitJoin(tokens, ' ');
  }

  /** A name with `k` spaces gives 3 + 2k tokens: two more for each space, since the name occurs twice. */
  lemma TokenCount(name: string, stamp: string)
    requires ' ' !in stamp
    ensures |Text.Split(MoveCommand(name, stamp), ' ')| == 3 + 2 * Text.Occurrences(name, ' ')
  {
    Text.NotInOccurrences(stamp, ' ');
  }

  /** `mv` receives more than its three tokens exactly when the name has a space. */
  lemma SpacesCorruptTokens(name: string, stamp: string)
    requires ' ' !in stamp
    ensures ' ' in name <==> |Text.Split(MoveCommand(name, stamp), ' ')| > 3
  {
    TokenCount(name, stamp);
    Text.NotInOccurrences(name, ' ');
  }

  /**
    A '/'-free name keeps its name at both ends: it is the basename of the
    source, and the basename of the destination is the stamp, '-' and it.
   */
  lemma SameNameBothEnds(name: string, stamp: string)
    requires '/' !in name && '/' !in stamp
    ensures Paths.Basename(Source(name)) == name
    ensures Paths.Basename(Target(name, stamp)) == stamp + "-" + name
  {
    assert Source(name) == "_drafts" + "/" + name;
    Paths.BasenameUnderDirectory("_drafts", name);
    assert Target(name, stamp) == "_posts" + "/" + (stamp + "-" + name);
    Paths.BasenameUnderDirectory("_posts", stamp + "-" + name);
  }

  /** The command lines for a list of arguments: one per argument, in order. */
  function Publish(args: seq<string>, stamp: string): (commands: seq<string>)
    ensures |commands| == |args|
    ensures forall i :: 0 <= i < |args| ==> commands[i] == MoveCommand(Paths.Basename(args[i]), stamp)
  {
    if |args| == 0 then []
    else [MoveCommand(Paths.Basename(args[0]), stamp)] + Publish(args[1..], stamp)
  }

  /**
    Every argument whose basename has no space becomes the three tokens `mv`,
    `_drafts/<basename>` and `_posts/<stamp>-<basename>`: the directory part
    of the argument is dropped from the source as well as from the destination.
   */
  lemma PublishTokens(args: seq<string>, stamp: string)
    requires ' ' !in stamp
    ensures forall i :: 0 <= i < |args| && ' ' !in Paths.Basename(args[i]) ==>
      Text.Split(Publish(args, stamp)[i], ' ')
        == ["mv", Source(Paths.Basename(args[i])), Target(Paths.Basename(args[i]), stamp)]
  {
    forall i | 0 <= i < |args| && ' ' !in Paths.Basename(args[i])
      ensures Text.Split(Publish(args, stamp)[i], ' ')
        == ["mv", Source(Paths.Basename(args[i])), Target(Paths.Basename(args[i]), stamp)]
    {
      CommandTokens(Paths.Basename(args[i]), stamp);
    }
  }

  /**
    Two arguments `a.md` and `dir/b.md`: the second command moves
    `_drafts/b.md`, not `_drafts/dir/b.md`.
   */
  lemma PublishExample(args: seq<string>, stamp: string)
    requires args == ["a.md", "dir/b.md"]
    ensures Publish(args, stamp) == [MoveCommand("a.md", stamp), MoveCommand("b.md", stamp)]
  {
    Paths.BasenameWithoutSlash(args[0]);
    assert args[1] == "dir" + "/" + "b.md";
    Paths.BasenameUnderDirectory("dir", "b.md");
  }

  /** `cmd(c)`: echo the line, then run it cut on single spaces. */
  function Cmd(c: string): (call: Invocation)
    ensures call.echo == c
    ensures |call.argv| >= 1
    ensures Text.Join(call.argv, ' ') == c
    ensures forall i :: 0 <= i < |call.argv| ==> ' ' !in call.argv[i]
  {
    Text.JoinSplit(c, ' ');
    Invocation(c, Text.Split(c, ' '))
  }

  /** `sys.argv[1:]`: everything after the program name (nothing when `argv` is empty). */
  function Arguments(argv: seq<string>): (args: seq<string>)
    ensures |args| == if |argv| == 0 then 0 else |argv| - 1
    ensures forall i :: 0 <= i < |args| ==> args[i] == argv[i + 1]
  {
    if |argv| == 0 then [] else argv[1..]
  }

  /**
    The loop of the script's main block: `cmd` is called once per name, in
    order, each time with the move command for that name.
   */
  method CallEach(names: seq<string>, stamp: string) returns (calls: seq<Invocation>)
    ensures |calls| == |names|
    ensures forall i :: 0 <= i < |names| ==> calls[i] == Cmd(MoveCommand(names[i], stamp))
  {
    calls := [];
    var k := 0;
    while k < |names|
      invariant 0 <= k <= |names|
      invariant |calls| == k
      invariant forall i :: 0 <= i < k ==> calls[i] == Cmd(MoveCommand(names[i], stamp))
    {
      calls := calls + [Cmd(MoveCommand(names[k], stamp))];
      k := k + 1;
    }
  }

  /**
    The script's main block: drop the program name from `argv`, take the
    basename of every argument, then call `cmd` once per name in order, with
    the date formatted as its prefix. An argument whose basename has no space
    runs `mv` with exactly its draft and its dated post as operands.
   */
  method Run(argv: seq<string>, date: Dates.Date) returns (calls: seq<Invocation>)
    ensures |calls| == |Arguments(argv)|
    ensures forall i :: 0 <= i < |calls| ==>
      calls[i] == Cmd(Publish(Arguments(argv), Dates.DatePrefix(date))[i])
    ensures forall i :: 0 <= i < |calls| && ' ' !in Paths.Basename(argv[i + 1]) ==>
      calls[i].argv == ["mv", Source(Paths.Basename(argv[i + 1])),
                        Target(Paths.Basename(argv[i + 1]), Dates.DatePrefix(date))]
  {
    var args := Arguments(argv);
    var toPublish := seq(|args|, i requires 0 <= i < |args| => Paths.Basename(args[i]));
    var stamp := Dates.DatePrefix(date);
    calls := CallEach(toPublish, stamp);
    PublishTokens(args, stamp);
    forall i | 0 <= i < |calls| && ' ' !in Paths.Basename(argv[i + 1])
      ensures calls[i].argv == ["mv", Source(Paths.Basename(argv[i + 1])),
                                Target(Paths.Basename(argv[i + 1]), stamp)]
    {
      assert args[i] == argv[i + 1];
      assert calls[i].argv == Text.Split(Publish(args, stamp)[i], ' ');
    }
  }
}
