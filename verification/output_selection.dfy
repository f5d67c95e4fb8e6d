/**
  Choosing the output gamepad the USB gadget impersonates from the single
  command-line argument.

  The table of output gamepads is a parameter: its entries (DualSense first,
  DualShock second) are defined in files that are not part of this model. Of
  a gamepad only the fields the selection reads are kept.
 */
module OutputSelection {
  import opened Wrappers

  datatype Gamepad = Gamepad(isSupported: bool, displayName: string, associatedArgs: seq<string>)

  /** Outcome of the selection. Both failures end the process with exit status 1. */
  datatype Selection =
    | Selected(index: nat)
    | ExitWrongArgumentCount
    | ExitNoSupportedGamepad

  /** `pattern` occurs in `s` starting at position `i`. */
  predicate OccursAt(s: string, pattern: string, i: int)
  {
    0 <= i && i + |pattern| <= |s| && s[i..i + |pattern|] == pattern
  }

  /** Substring containment, as Rust's `str::contains` with a string pattern. */
  predicate Contains(s: string, pattern: string)
  {
    exists i | 0 <= i <= |s| - |pattern| :: OccursAt(s, pattern, i)
  }

  /** Some associated argument of `g` occurs in `arg`. */
  predicate Matches(arg: string, g: Gamepad)
  {
    exists a :: a in g.associatedArgs && Contains(arg, a)
  }

  predicate Selectable(arg: string, g: Gamepad)
  {
    g.isSupported && Matches(arg, g)
  }

  /** Reference definition: the index of the first selectable gamepad at or after `from`. */
  function FirstSelectable(arg: string, table: seq<Gamepad>, from: nat): (r: Option<nat>)
    requires from <= |table|
    ensures r.Some? ==> from <= r.value < |table| && Selectable(arg, table[r.value])
    ensures r.Some? ==> forall j :: from <= j < r.value ==> !Selectable(arg, table[j])
    ensures r.None? ==> forall j :: from <= j < |table| ==> !Selectable(arg, table[j])
    decreases |table| - from
  {
    if from == |table| then None
    else if Selectable(arg, table[from]) then Some(from)
    else FirstSelectable(arg, table, from + 1)
  }

  /** The indices below `n` of gamepads that match but are not supported, in order. */
  function SkippedBelow(arg: string, table: seq<Gamepad>, n: nat): (r: seq<nat>)
    requires n <= |table|
    ensures forall k: nat :: k in r <==> k < n && !table[k].isSupported && Matches(arg, table[k])
  {
    if n == 0 then []
    else SkippedBelow(arg, table, n - 1)
         + (if !table[n - 1].isSupported && Matches(arg, table[n - 1]) then [n - 1] else [])
  }

  /**
    `args` is the whole argument vector, program name first. For every gamepad
    in table order, its associated arguments are tried in order; the first one
    contained in the given argument decides that gamepad: a supported one is
    returned, an unsupported one is reported and the search moves on to the
    next gamepad. `skipped` lists the gamepads reported as not yet supported.
   */
  method FromCmdlineArgs(args: seq<string>, table: seq<Gamepad>) returns (r: Selection, skipped: seq<nat>)
    ensures r == ExitWrongArgumentCount <==> |args| != 2
    ensures r == ExitWrongArgumentCount ==> skipped == []
    ensures r.Selected? ==> |args| == 2 && FirstSelectable(args[1], table, 0) == Some(r.index)
    ensures r.Selected? ==> |args| == 2 && r.index < |table| && table[r.index].isSupported && Matches(args[1], table[r.index])
    ensures r.Selected? ==> |args| == 2 && skipped == SkippedBelow(args[1], table, r.index)
    ensures r == ExitNoSupportedGamepad ==> |args| == 2 && FirstSelectable(args[1], table, 0) == None
    ensures r == ExitNoSupportedGamepad ==> |args| == 2 && skipped == SkippedBelow(args[1], table, |table|)
  {
    skipped := [];
    if |args| != 2 {
      return ExitWrongArgumentCount, skipped;
    }
    var given := args[1];
    var g := 0;
    while g < |table|
      invariant 0 <= g <= |table|
      invariant FirstSelectable(given, table, 0) == FirstSelectable(given, table, g)
      invariant skipped == SkippedBelow(given, table, g)
    {
      var gamepad := table[g];
      var a := 0;
      var matched := false;
      while a < |gamepad.associatedArgs|
        invariant 0 <= a <= |gamepad.associatedArgs|
        invariant !matched ==> forall k :: 0 <= k < a ==> !Contains(given, gamepad.associatedArgs[k])
        invariant matched ==> Matches(given, gamepad) && !gamepad.isSupported
        invariant skipped == SkippedBelow(given, table, g) + (if matched then [g] else [])
      {
        if Contains(given, gamepad.associatedArgs[a]) {
          if gamepad.isSupported {
            assert Selectable(given, gamepad) by {
              assert gamepad.associatedArgs[a] in gamepad.associatedArgs;
            }
            return Selected(g), skipped;
          } else {
            assert Matches(given, gamepad) by {
              assert gamepad.associatedArgs[a] in gamepad.associatedArgs;
            }
            skipped := skipped + [g];
            matched := true;
            break;
          }
        }
        a := a + 1;
      }
      if !matched {
        forall w | w in gamepad.associatedArgs
          ensures !Contains(given, w)
        {
          var k :| 0 <= k < |gamepad.associatedArgs| && gamepad.associatedArgs[k] == w;
        }
      }
      g := g + 1;
    }
    return ExitNoSupportedGamepad, skipped;
  }
}
