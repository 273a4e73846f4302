/**
 * The shell commands vmc.py's `mem`, `gpu`, `rm` and `stop` issue.  A
 * positional argument is a string or absent (Python's None); running a
 * command is not part of the model, only its text.
 */
module VmcCommands {
  import opened Wrappers
  import opened Text
  import opened Numerals
  import opened OrderedMaps
  import opened Virsh

  /** Python's `not vm` for an optional string argument: absent or empty. */
  predicate Falsy(vm: Option<string>) {
    vm.None? || vm.value == ""
  }

  /** KiB in one GiB: `int(size) * 1024 * 1024`. */
  const KiBPerGiB: int := 1024 * 1024

  /** The XML `mem` prints for the user to paste into the domain definition. */
  function MemoryElement(kib: int): string {
    "<memory unit='KiB'>" + ShowInt(kib) + "</memory><currentMemory unit='KiB'>" + ShowInt(kib) + "</currentMemory>"
  }

  /** What `mem` does: show the host's memory, or print the XML and open the editor. */
  datatype MemAction = ShowFree(command: string) | EditMemory(xml: string, command: string)

  /**
   * vmc.py's `mem(vm, size)`: without a domain the host's `free -h`; else
   * `size` GiB in KiB, which fails like Python's `int()` does.
   */
  function Mem(vm: Option<string>, size: Option<string>): (r: Result<MemAction, Exception>)
    ensures Falsy(vm) <==> r == Ok(ShowFree("free -h"))
    ensures !Falsy(vm) && size.None? ==> r == Err(TypeError)
    ensures !Falsy(vm) && size.Some? ==>
      match ParseInt(size.value)
      case None => r == Err(ValueError)
      case Some(g) => r == Ok(EditMemory(MemoryElement(g * KiBPerGiB), "virsh edit " + vm.value))
  {
    if Falsy(vm) then Ok(ShowFree("free -h"))
    else if size.None? then Err(TypeError)
    else match ParseInt(size.value)
      case None => Err(ValueError)
      case Some(g) => Ok(EditMemory(MemoryElement(g * KiBPerGiB), "virsh edit " + vm.value))
  }

  /** The KiB count written into the XML reads back as the GiB asked for, times 1024 * 1024. */
  lemma MemSizeRoundTrip(vm: string, g: int)
    requires vm != ""
    ensures Mem(Some(vm), Some(ShowInt(g))).Ok?
    ensures var a := Mem(Some(vm), Some(ShowInt(g))).value;
      a.EditMemory? && a.command == "virsh edit " + vm && a.xml == MemoryElement(g * KiBPerGiB)
    ensures ParseInt(ShowInt(g * KiBPerGiB)) == Some(g * KiBPerGiB)
  {
    ParseShowInt(g);
    ParseShowInt(g * KiBPerGiB);
  }

  /** The `--host-dev` option for each device. */
  function HostDevArgs(devices: seq<string>): (args: seq<string>)
    ensures |args| == |devices|
  {
    seq(|devices|, i requires 0 <= i < |devices| => "--host-dev " + devices[i])
  }

  /** vmc.py's `gpu(vm, devices)`: detach every host device, then attach the listed ones. */
  function Gpu(vm: Option<string>, devices: Option<string>): (r: Result<string, Exception>)
    ensures Falsy(vm) <==> r == Ok("lspci | grep -E \"acc|Display\"")
    ensures !Falsy(vm) && devices.None? ==> r == Err(AttributeError)
    ensures !Falsy(vm) && devices.Some? ==>
      r == Ok(RemoveAll(vm.value) + "\n" + AddDevices(vm.value, Split(devices.value, ',')))
  {
    if Falsy(vm) then Ok("lspci | grep -E \"acc|Display\"")
    else if devices.None? then Err(AttributeError)
    else Ok(RemoveAll(vm.value) + "\n" + AddDevices(vm.value, Split(devices.value, ',')))
  }

  function RemoveAll(vm: string): string {
    "virt-xml " + vm + " --remove-device --host-dev all"
  }

  function AddDevices(vm: string, devices: seq<string>): string {
    "virt-xml " + vm + " --add-device " + Join(HostDevArgs(devices), " ")
  }

  /** The words of the `--host-dev` options: the option name before each device. */
  function HostDevWords(devices: seq<string>): (words: seq<string>)
    ensures |words| == 2 * |devices|
  {
    if devices == [] then [] else ["--host-dev", devices[0]] + HostDevWords(devices[1..])
  }

  /** Device names without spaces come out of the command line as separate words. */
  lemma {:induction false} HostDevArgsSplit(devices: seq<string>)
    requires |devices| >= 1
    requires forall i :: 0 <= i < |devices| ==> ' ' !in devices[i]
    ensures Split(Join(HostDevArgs(devices), " "), ' ') == HostDevWords(devices)
  {
    var args := HostDevArgs(devices);
    assert args[0] == "--host-dev" + [' '] + devices[0];
    SplitPair("--host-dev", devices[0], ' ');
    if |devices| > 1 {
      var rest := devices[1..];
      assert HostDevArgs(rest) == args[1..];
      HostDevArgsSplit(rest);
      var j := Join(args[1..], " ");
      assert Join(args, " ") == args[0] + [' '] + j;
      SplitConcat(args[0], j, ' ');
    }
  }

  /**
   * The devices `gpu` attaches are exactly the comma-separated ones asked for:
   * the words after `--add-device` alternate `--host-dev` and a device, and
   * the devices joined with commas give back the argument.
   */
  lemma GpuAttachesEachDevice(vm: string, devices: string)
    requires ' ' !in devices
    ensures var ds := Split(devices, ',');
      Split(Join(HostDevArgs(ds), " "), ' ') == HostDevWords(ds) && Join(ds, [',']) == devices
  {
    var ds := Split(devices, ',');
    SplitPiecesWithin(devices, ',', ' ');
    HostDevArgsSplit(ds);
    JoinSplit(devices, ',');
  }

  /** `'--remove-all-storage' if '--rs' in kwargs else ''`: the flag's value is not looked at. */
  function UndefineOption(kwargs: map<string, string>): string {
    if "--rs" in kwargs then "--remove-all-storage" else ""
  }

  /** vmc.py's `rm(*vms, **kwargs)`: one `virsh undefine` per domain, in order. */
  method Rm(vms: seq<string>, kwargs: map<string, string>) returns (issued: seq<string>)
    ensures |issued| == |vms|
    ensures forall i :: 0 <= i < |vms| ==> issued[i] == "virsh undefine " + UndefineOption(kwargs) + " " + vms[i]
  {
    var options := UndefineOption(kwargs);
    issued := [];
    for i := 0 to |vms|
      invariant |issued| == i
      invariant forall j :: 0 <= j < i ==> issued[j] == "virsh undefine " + options + " " + vms[j]
    {
      issued := issued + ["virsh undefine " + options + " " + vms[i]];
    }
  }

  /** The commands a run issued and the exception that ended it, if any. */
  datatype Run = Run(issued: seq<string>, failure: Option<Exception>)

  /** `stop`'s loop over the targets: destroy the running ones; an unknown name raises KeyError. */
  function StopPlan(table: VmTable, targets: seq<string>): (run: Run)
    ensures run.failure.Some? ==> run.failure.value.KeyError?
  {
    if targets == [] then Run([], None)
    else
      var before := StopPlan(table, targets[..|targets| - 1]);
      var vm := Last(targets);
      if before.failure.Some? then before
      else match Get(table, vm)
        case None => Run(before.issued, Some(KeyError(vm)))
        case Some(running) => if running then Run(before.issued + ["virsh destroy " + vm], None) else before
  }

  /** The domains `stop` acts on: all listed ones with `--all`, else those named. */
  function StopTargets(table: VmTable, vms: seq<string>, kwargs: map<string, string>): seq<string> {
    if "--all" in kwargs then Keys(table) else vms
  }

  /** What `stop` does given the output of `virsh list --all`. */
  function StopSpec(listing: string, vms: seq<string>, kwargs: map<string, string>): Run {
    match VmList(listing)
    case Err(e) => Run([], Some(e))
    case Ok(table) => StopPlan(table, StopTargets(table, vms, kwargs))
  }

  /** vmc.py's `stop(*vms, **kwargs)`, given the output of `virsh list --all`. */
  method Stop(listing: string, vms: seq<string>, kwargs: map<string, string>) returns (run: Run)
    ensures run == StopSpec(listing, vms, kwargs)
  {
    var info := GetVmList(listing);
    if info.Err? {
      return Run([], Some(info.error));
    }
    var table := info.value;
    var targets := if "--all" in kwargs then Keys(table) else vms;
    var issued := [];
    for i := 0 to |targets|
      invariant StopPlan(table, targets[..i]) == Run(issued, None)
    {
      assert targets[..i + 1][..i] == targets[..i];
      var vm := targets[i];
      var running := Get(table, vm);
      if running.None? {
        StopFailureSticky(table, targets, i + 1);
        return Run(issued, Some(KeyError(vm)));
      }
      if running.value {
        issued := issued + ["virsh destroy " + vm];
      }
    }
    assert targets[..|targets|] == targets;
    return Run(issued, None);
  }

  /** Once a target fails, later targets change nothing. */
  lemma {:induction false} StopFailureSticky(table: VmTable, targets: seq<string>, n: nat)
    requires n <= |targets| && StopPlan(table, targets[..n]).failure.Some?
    ensures StopPlan(table, targets) == StopPlan(table, targets[..n])
  {
    if n < |targets| {
      var init := targets[..|targets| - 1];
      assert init[..n] == targets[..n];
      StopFailureSticky(table, init, n);
    } else {
      assert targets[..n] == targets;
    }
  }

  /** `stop` fails exactly when some target is not a listed domain, and then with that name. */
  lemma {:induction false} StopFails(table: VmTable, targets: seq<string>)
    ensures StopPlan(table, targets).failure.Some? <==> exists i :: 0 <= i < |targets| && targets[i] !in Keys(table)
    ensures StopPlan(table, targets).failure.Some? ==> StopPlan(table, targets).failure.value.key !in Keys(table)
  {
    if targets != [] {
      var init := targets[..|targets| - 1];
      StopFails(table, init);
      assert forall i :: 0 <= i < |init| ==> init[i] == targets[i];
    }
  }

  /** Every command `stop` issues destroys a domain that is listed as running. */
  lemma {:induction false} StopDestroysOnlyRunning(table: VmTable, targets: seq<string>)
    ensures forall c :: c in StopPlan(table, targets).issued ==>
      exists vm :: vm in targets && Get(table, vm) == Some(true) && c == "virsh destroy " + vm
  {
    if targets != [] {
      var init := targets[..|targets| - 1];
      StopDestroysOnlyRunning(table, init);
      assert forall vm :: vm in init ==> vm in targets;
    }
  }

  /** The commands `stop` issues when no target fails: one per running target, in order. */
  function Destroys(table: VmTable, targets: seq<string>): seq<string> {
    if targets == [] then []
    else
      var vm := Last(targets);
      Destroys(table, targets[..|targets| - 1])
        + (if Get(table, vm) == Some(true) then ["virsh destroy " + vm] else [])
  }

  /** With every target listed, `stop` destroys exactly the running ones and does not fail. */
  lemma {:induction false} StopKnownTargets(table: VmTable, targets: seq<string>)
    requires forall i :: 0 <= i < |targets| ==> targets[i] in Keys(table)
    ensures StopPlan(table, targets) == Run(Destroys(table, targets), None)
  {
    if targets != [] {
      var init := targets[..|targets| - 1];
      assert forall i :: 0 <= i < |init| ==> init[i] == targets[i];
      StopKnownTargets(table, init);
    }
  }

  /** `stop --all` never fails on a table it could read, and destroys every running domain. */
  lemma StopAllDestroysRunning(table: VmTable, vms: seq<string>, kwargs: map<string, string>)
    requires "--all" in kwargs
    ensures StopPlan(table, StopTargets(table, vms, kwargs)) == Run(Destroys(table, Keys(table)), None)
  {
    StopKnownTargets(table, Keys(table));
  }
}
