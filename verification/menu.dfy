/**
 * What the launcher shows and runs: the ranked names (`historyNameStream`),
 * merged with the discovered programs (`multiplexMenuStreams`), the menu's
 * pass-through arguments (`dmenuArgs`) and the split of the chosen line into
 * program and argument (`launchCommand`). Channels are finite sequences.
 */
module Menu {
  import opened Text
  import opened Commands

  /** `historyNameStream`: the commands' names, in the order given. */
  function NameStream(cs: seq<Command>): (names: seq<string>)
    ensures |names| == |cs|
    ensures forall i :: 0 <= i < |cs| ==> names[i] == cs[i].name
  {
    if cs == [] then [] else [cs[0].name] + NameStream(cs[1..])
  }

  /** The names of `discovered` that are not in `seen`, in order, repeats kept. */
  function Unseen(discovered: seq<string>, seen: set<string>): (r: seq<string>)
    ensures forall x :: x in r <==> x in discovered && x !in seen
    ensures |r| <= |discovered|
  {
    if discovered == [] then []
    else
      var n := |discovered| - 1;
      var front := Unseen(discovered[..n], seen);
      assert forall x :: x in discovered <==> x in discovered[..n] || x == discovered[n];
      if discovered[n] in seen then front else front + [discovered[n]]
  }

  /**
   * `multiplexMenuStreams(history, commands)`: every history name first, in
   * order, each recorded as seen; then the discovered names not seen.
   */
  method Multiplex(history: seq<string>, commands: seq<string>) returns (out: seq<string>)
    ensures |history| <= |out| && out[..|history|] == history
    ensures out[|history|..] == Unseen(commands, set x | x in history)
  {
    var seen: map<string, bool> := map[];
    out := [];
    for i := 0 to |history|
      invariant out == history[..i]
      invariant seen.Keys == set x | x in history[..i]
    {
      assert history[..i + 1] == history[..i] + [history[i]];
      seen := seen[history[i] := true];
      out := out + [history[i]];
    }
    assert history[..|history|] == history;
    for i := 0 to |commands|
      invariant out == history + Unseen(commands[..i], seen.Keys)
    {
      UnseenStep(commands, seen.Keys, i);
      if commands[i] !in seen {
        out := out + [commands[i]];
      }
    }
    assert commands[..|commands|] == commands;
  }

  lemma UnseenStep(discovered: seq<string>, seen: set<string>, i: nat)
    requires i < |discovered|
    ensures Unseen(discovered[..i + 1], seen)
         == Unseen(discovered[..i], seen) + (if discovered[i] in seen then [] else [discovered[i]])
  {
    assert discovered[..i + 1][..i] == discovered[..i];
  }

  /** No name occurs twice. */
  predicate NoRepeats(s: seq<string>) {
    forall i, j :: 0 <= i < j < |s| ==> s[i] != s[j]
  }

  lemma {:induction false} UnseenNoRepeats(discovered: seq<string>, seen: set<string>)
    requires NoRepeats(discovered)
    ensures NoRepeats(Unseen(discovered, seen))
    decreases |discovered|
  {
    if discovered != [] {
      var n := |discovered| - 1;
      assert NoRepeats(discovered[..n]) by {
        forall i, j | 0 <= i < j < n ensures discovered[..n][i] != discovered[..n][j] {
          assert discovered[..n][i] == discovered[i] && discovered[..n][j] == discovered[j];
        }
      }
      UnseenNoRepeats(discovered[..n], seen);
      assert discovered[n] !in discovered[..n];
    }
  }

  /**
   * The menu lists every name from either source, ranked names ahead of all
   * new ones, and repeats none when neither source repeats itself.
   */
  lemma MergedMenu(history: seq<string>, discovered: seq<string>, out: seq<string>)
    requires |history| <= |out| && out[..|history|] == history
    requires out[|history|..] == Unseen(discovered, set x | x in history)
    ensures forall x :: x in out <==> x in history || x in discovered
    ensures forall j :: |history| <= j < |out| ==> out[j] !in history
    ensures NoRepeats(history) && NoRepeats(discovered) ==> NoRepeats(out)
  {
    var tail := out[|history|..];
    assert out == history + tail;
    forall j | |history| <= j < |out| ensures out[j] !in history {
      assert out[j] == tail[j - |history|] && tail[j - |history|] in tail;
    }
    if NoRepeats(history) && NoRepeats(discovered) {
      UnseenNoRepeats(discovered, set x | x in history);
      forall i, j | 0 <= i < j < |out| ensures out[i] != out[j] {
        if j >= |history| && i < |history| {
          assert out[i] in history;
        } else if i >= |history| {
          assert out[i] == tail[i - |history|] && out[j] == tail[j - |history|];
        }
      }
    }
  }

  /** History [vim, emacs, neovim] with discovered [emacs, nano, vim] gives [vim, emacs, neovim, nano]. */
  lemma MultiplexExample()
    ensures ["vim", "emacs", "neovim"] + Unseen(["emacs", "nano", "vim"], {"vim", "emacs", "neovim"})
         == ["vim", "emacs", "neovim", "nano"]
  {
    var c := ["emacs", "nano", "vim"];
    var seen := {"vim", "emacs", "neovim"};
    assert c[..2] == ["emacs", "nano"] && c[..2][..1] == ["emacs"] && c[..1][..0] == [];
    assert Unseen(c[..1], seen) == [];
    assert Unseen(c[..2], seen) == ["nano"];
  }

  /**
   * `dmenuArgs` over the program's argument list `argv` (whose first element
   * is the program itself): what follows the first "--", or nothing.
   */
  method DmenuArgs(argv: seq<string>) returns (r: seq<string>)
    requires |argv| >= 1
    ensures "--" !in argv[1..] ==> r == []
    ensures forall i :: 1 <= i < |argv| && argv[i] == "--" && "--" !in argv[1..i] ==> r == argv[i + 1..]
  {
    var args := argv[1..];
    for i := 0 to |args|
      invariant forall k :: 0 <= k < i ==> args[k] != "--"
    {
      if args[i] == "--" {
        return args[i + 1..];
      }
    }
    return [];
  }

  /**
   * The split step of `launchCommand`, `strings.SplitN(command, " ", 2)`: the
   * program name up to the first single space, and the raw rest (untokenised)
   * as the one argument, or no argument when there is no space.
   */
  function LaunchSplit(command: string): (r: (string, seq<string>))
    ensures ' ' !in r.0 && |r.1| <= 1
    ensures r.1 == [] <==> ' ' !in command
    ensures r.1 == [] ==> r.0 == command
    ensures r.1 != [] ==> command == r.0 + " " + r.1[0]
  {
    var split := SplitFirst(command, ' ');
    (split[0], split[1..])
  }

  /** "st -e top" runs st with the single argument "-e top": only the first space splits. */
  lemma LaunchSplitExample()
    ensures LaunchSplit("st -e top") == ("st", ["-e top"])
  {
    var name: string, rest: string := "st", "-e top";
    assert ' ' !in name;
    LaunchSplitUnique(name, rest);
    assert name + " " + rest == "st -e top";
  }

  /** A name without spaces, a space and a rest split back into that name and rest. */
  lemma LaunchSplitUnique(name: string, rest: string)
    requires ' ' !in name
    ensures LaunchSplit(name + " " + rest) == (name, [rest])
  {
    var command := name + " " + rest;
    var r := LaunchSplit(command);
    assert command[|name|] == ' ';
    assert r.1 != [];
    assert r.0 == command[..|r.0|] == name;
    assert r.1[0] == command[|name| + 1..] == rest;
  }
}
