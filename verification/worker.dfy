/**
 * `LaunchThread.run`: announce busy, install the selected version while
 * relaying progress, resolve the id to launch, launch it and wait, announce
 * idle. The installer, the installed-versions listing and the game process
 * are outside the model: the installer's callbacks and the ids installed
 * afterwards are parameters, and a launch is recorded as the command it
 * would be built from.
 */
module Worker {
  import opened Common
  import Text
  import Menu
  import Progress

  /** How `run` can stop before launching: a `KeyError` on the descriptor, or `v` never bound (`UnboundLocalError`). */
  datatype Fault = MissingKey(key: string) | Unbound

  /** The parts of the launch command the model keeps: the runnable id and the player name. */
  datatype Launch = Launch(version: string, username: string)

  /** Everything one run emits: busy/idle signals, progress triples, and the launch, if any. */
  datatype Trace = Trace(
    states: seq<bool>,
    emitted: seq<Progress.Triple>,
    registers: Progress.Triple,
    launched: Option<Launch>,
    fault: Option<Fault>)

  /** The installed id matches when its last `-`-separated token is the requested version. */
  predicate Matches(id: string, version: string) {
    Text.LastToken(id) == version
  }

  /**
   * The scan over the installed ids, continuing from a current binding `v`:
   * every matching id overwrites the binding, so the last match wins.
   */
  function Scan(ids: seq<string>, version: string, v: Option<string>): (r: Option<string>)
    ensures (forall i :: 0 <= i < |ids| ==> !Matches(ids[i], version)) ==> r == v
    ensures (exists i :: 0 <= i < |ids| && Matches(ids[i], version)) ==>
              exists i :: && 0 <= i < |ids| && r == Some(ids[i]) && Matches(ids[i], version)
                          && forall j :: i < j < |ids| ==> !Matches(ids[j], version)
    decreases |ids|
  {
    if |ids| == 0 then v
    else Scan(ids[1..], version, if Matches(ids[0], version) then Some(ids[0]) else v)
  }

  /**
   * The id `run` hands to the command builder. The branch is chosen by the
   * substring test `"Fabric" in version_name`; the Fabric branch reads
   * `version_dict["version"]`, the other branch reads `version_dict["id"]`.
   */
  function Resolve(name: string, data: Menu.Descriptor, installed: seq<string>): (r: Result<string, Fault>)
    ensures Text.Contains(name, "Fabric") && data.Vanilla? ==> r == Failure(MissingKey("version"))
    ensures !Text.Contains(name, "Fabric") && data.Fabric? ==> r == Failure(MissingKey("id"))
    ensures !Text.Contains(name, "Fabric") && data.Vanilla? ==> r == Success(data.release.id)
    ensures Text.Contains(name, "Fabric") && data.Fabric? ==>
              && (r == Failure(Unbound) <==>
                    forall i :: 0 <= i < |installed| ==> !Matches(installed[i], data.fabric.version))
              && ((exists i :: 0 <= i < |installed| && Matches(installed[i], data.fabric.version)) ==> r.Success?)
              && (r.Success? ==>
                    exists i :: && 0 <= i < |installed| && r.value == installed[i]
                                && Text.LastToken(installed[i]) == data.fabric.version
                                && forall j :: i < j < |installed| ==> !Matches(installed[j], data.fabric.version))
  {
    if Text.Contains(name, "Fabric") then
      match data
      case Vanilla(_) => Failure(MissingKey("version"))
      case Fabric(f) =>
        match Scan(installed, f.version, None)
        case None => Failure(Unbound)
        case Some(v) => Success(v)
    else
      match data
      case Fabric(_) => Failure(MissingKey("id"))
      case Vanilla(rel) => Success(rel.id)
  }

  /** The callbacks the installer gets to make: a missing key is raised before it starts. */
  function Reported(r: Result<string, Fault>, callbacks: seq<Progress.Callback>): seq<Progress.Callback> {
    if r.Failure? && r.error.MissingKey? then [] else callbacks
  }

  /**
   * `run` as written: the idle signal is the last statement, so after any
   * fault it is never emitted. What the window shows then depends on how the
   * exception leaving the thread is handled, which is outside this model.
   */
  function Run(name: string, data: Menu.Descriptor, login: string, installed: seq<string>,
               p: Progress.Triple, callbacks: seq<Progress.Callback>): (t: Trace)
    ensures |t.states| > 0 && t.states[0]
    ensures t.launched.Some? <==> Resolve(name, data, installed).Success?
    ensures t.states == [true, false] <==> t.launched.Some?
    ensures t.states == [true] <==> t.fault.Some?
    ensures var r := Resolve(name, data, installed);
      && t.launched == (if r.Success? then Some(Launch(r.value, login)) else None)
      && t.fault == (if r.Failure? then Some(r.error) else None)
      && t.emitted == Progress.Emissions(p, Reported(r, callbacks))
      && t.registers == Progress.Final(p, Reported(r, callbacks))
  {
    var r := Resolve(name, data, installed);
    var cs := Reported(r, callbacks);
    var emitted := Progress.Emissions(p, cs);
    var registers := Progress.Final(p, cs);
    match r
    case Failure(f) => Trace([true], emitted, registers, None, Some(f))
    case Success(v) => Trace([true, false], emitted, registers, Some(Launch(v, login)), None)
  }

  /** `run` with the idle signal in a `finally`: the busy state is released on every path. */
  function RunGuarded(name: string, data: Menu.Descriptor, login: string, installed: seq<string>,
                      p: Progress.Triple, callbacks: seq<Progress.Callback>): (t: Trace)
    ensures t.states == [true, false]
    ensures t.launched.Some? <==> Resolve(name, data, installed).Success?
    ensures t.launched.None? <==> t.fault.Some?
    ensures var r := Resolve(name, data, installed);
      && t.launched == (if r.Success? then Some(Launch(r.value, login)) else None)
      && t.fault == (if r.Failure? then Some(r.error) else None)
      && t.emitted == Progress.Emissions(p, Reported(r, callbacks))
      && t.registers == Progress.Final(p, Reported(r, callbacks))
  {
    Run(name, data, login, installed, p, callbacks).(states := [true, false])
  }

  /** The two runs differ only in the final idle signal. */
  lemma RunGuardedAgrees(name: string, data: Menu.Descriptor, login: string, installed: seq<string>,
                         p: Progress.Triple, callbacks: seq<Progress.Callback>)
    ensures var t := Run(name, data, login, installed, p, callbacks);
      var g := RunGuarded(name, data, login, installed, p, callbacks);
      g.emitted == t.emitted && g.registers == t.registers && g.launched == t.launched && g.fault == t.fault
  {
  }

  /** A stable Fabric build that no installed id matches (here only 1.20 and its loader are installed) signals busy and never signals idle. */
  lemma StuckBusyOnUnmatchedFabric()
    ensures var t := Run("Fabric 1.20.1", Menu.Fabric(Menu.FabricRelease("1.20.1", true)), "alice",
                         ["1.20", "fabric-loader-0.15.7-1.20"], Progress.Initial, []);
      t.states == [true] && t.fault == Some(Unbound)
  {
    var name := "Fabric 1.20.1";
    var version := "1.20.1";
    var installed := ["1.20", "fabric-loader-0.15.7-1.20"];
    assert Text.Contains(name, "Fabric") by {
      assert Text.StartsWith(name, "Fabric");
    }
    forall i | 0 <= i < |installed|
      ensures !Matches(installed[i], version)
    {
      if i == 0 {
        Text.DashFreeIsLastToken("1.20");
      } else {
        Text.LastTokenAfterDash("fabric-loader-0.15.7", "1.20");
        assert "fabric-loader-0.15.7" + [Text.Dash] + "1.20" == installed[1];
      }
      assert |"1.20"| != |version|;
    }
    assert Resolve(name, Menu.Fabric(Menu.FabricRelease(version, true)), installed) == Failure(Unbound);
  }

  /**
   * A plain game id has no dash, so it is its own last token: when the vanilla
   * id of the same version is listed after the loader's id, the scan picks the
   * vanilla id.
   */
  lemma VanillaIdCanShadowLoader()
    ensures Resolve("Fabric 1.20.1", Menu.Fabric(Menu.FabricRelease("1.20.1", true)),
                    ["fabric-loader-0.15.7-1.20.1", "1.20.1"]) == Success("1.20.1")
  {
    var version := "1.20.1";
    var installed := ["fabric-loader-0.15.7-1.20.1", "1.20.1"];
    assert Text.Contains("Fabric 1.20.1", "Fabric") by {
      assert Text.StartsWith("Fabric 1.20.1", "Fabric");
    }
    Text.DashFreeIsLastToken(version);
    assert Matches(installed[1], version);
  }

  /**
   * Every item of the picker reaches the branch whose key its descriptor has,
   * provided, for a Vanilla item, that its id does not itself contain the word `Fabric`.
   */
  lemma PickerItemsRouteToTheirBranch(vs: seq<Menu.Release>, fs: seq<Menu.FabricRelease>, it: Menu.Item, installed: seq<string>)
    requires it in Menu.BuildMenu(vs, fs)
    requires it.data.Vanilla? ==> !Text.Contains(it.data.release.id, "Fabric")
    ensures !(Resolve(it.text, it.data, installed).Failure? && Resolve(it.text, it.data, installed).error.MissingKey?)
  {
    if it.data.Vanilla? {
      var p := Menu.VanillaPrefix;
      forall i | 0 <= i < |p|
        ensures p[i] != "Fabric"[0]
      {
      }
      Text.ContainsPastPrefix(p, it.data.release.id, "Fabric");
    } else {
      assert Text.StartsWith(it.text, "Fabric");
    }
  }
}
