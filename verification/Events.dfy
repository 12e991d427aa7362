/** The event model of asg-common/src/events.rs and the rule set of asg-common/src/policy_types.rs. */
module Events {
  import opened Options

  type U16 = x: nat | x < 0x1_0000
  type U32 = x: nat | x < 0x1_0000_0000
  type U64 = x: nat | x < 0x1_0000_0000_0000_0000

  datatype Event =
    | ProcExec(pid: U32, tgid: U32, ppid: U32, cgroupId: U64, comm: string, args: seq<string>, uid: U32, tsNs: U64)
    | FileOpen(pid: U32, tgid: U32, comm: string, path: string, flags: U32, tsNs: U64, isWriteHint: bool)
    | NetConnect(pid: U32, tgid: U32, comm: string, daddr: string, dport: U16, family: string, tsNs: U64)
    | CapEscalate(pid: U32, tgid: U32, comm: string, caps: string, tsNs: U64)

  const KERNEL_UNKNOWN_PPID: U32 := 0
  const KERNEL_UNKNOWN_CGROUP_ID: U64 := 0
  const KERNEL_UNKNOWN_UID: U32 := 0xFFFF_FFFF

  /** What the probes put on the wire, with the evidence fields optional. */
  datatype KernelRecord = KernelRecord(
    kind: string, pid: U32, tgid: U32, comm: string, tsNs: U64,
    args: seq<string>, uid: Option<U32>, cgroupId: Option<U64>,
    path: Option<string>, flags: Option<U32>, pathTruncated: bool,
    daddr: Option<string>, dport: Option<U16>, family: Option<string>)

  function GetOr<T>(o: Option<T>, default: T): T {
    match o
    case Some(v) => v
    case None => default
  }

  const TRUNCATED_SUFFIX := "<truncated>"

  function Widen(r: KernelRecord): Option<Event> {
    if r.kind == "proc_exec" then
      Some(ProcExec(r.pid, r.tgid, KERNEL_UNKNOWN_PPID, GetOr(r.cgroupId, KERNEL_UNKNOWN_CGROUP_ID),
                    r.comm, r.args, GetOr(r.uid, KERNEL_UNKNOWN_UID), r.tsNs))
    else if r.kind == "file_open" then
      var flags: U32 := GetOr(r.flags, 0);
      var path := GetOr(r.path, "") + (if r.pathTruncated then TRUNCATED_SUFFIX else "");
      Some(FileOpen(r.pid, r.tgid, r.comm, path, flags, r.tsNs, r.flags.Some? && flags % 4 != 0))
    else if r.kind == "net_connect" then
      Some(NetConnect(r.pid, r.tgid, r.comm, GetOr(r.daddr, ""), GetOr(r.dport, 0), GetOr(r.family, ""), r.tsNs))
    else None
  }

  datatype RuleSet = RuleSet(
    secretPathGlobs: seq<string>, deniedProcesses: seq<string>,
    deniedHosts: seq<string>, warnHosts: seq<string>, maxEventsPerSec: U32)
}
