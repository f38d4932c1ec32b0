/** The sandbox security policy: validated on construction, and turned into
    the Docker host configuration every container is created with. */
module Security {
  import opened Wrappers
  import opened Decimal
  import Job

  datatype SecurityPolicy = SecurityPolicy(
    networkDisabled: bool,
    readOnlyRootfs: bool,
    memoryLimitMb: int,
    cpuPeriod: int,
    cpuQuota: int,
    pidsLimit: int,
    tmpfsSizeMb: int,
    timeoutSeconds: int,
    noNewPrivileges: bool,
    capDrop: seq<string>)
  {
    /** What construction guarantees of every policy. */
    predicate Valid()
    {
      networkDisabled && memoryLimitMb > 0 && timeoutSeconds > 0 && pidsLimit > 0
      && cpuPeriod > 0 && cpuQuota > 0 && tmpfsSizeMb > 0
    }
  }

  const NetworkMessage: string :=
    "SecurityPolicy.network_disabled MUST be True. Sandboxed containers are never allowed network access."

  /** Construction with its checks, in the order they are made: network
      first, then memory, timeout, pids, CPU period, CPU quota, tmpfs. */
  function NewPolicy(networkDisabled: bool, readOnlyRootfs: bool, memoryLimitMb: int,
                     cpuPeriod: int, cpuQuota: int, pidsLimit: int, tmpfsSizeMb: int,
                     timeoutSeconds: int, noNewPrivileges: bool,
                     capDrop: seq<string>): (r: Result<SecurityPolicy>)
    ensures r.Ok? <==> networkDisabled && memoryLimitMb > 0 && timeoutSeconds > 0
                       && pidsLimit > 0 && cpuPeriod > 0 && cpuQuota > 0 && tmpfsSizeMb > 0
    ensures r.Ok? ==> r.value.Valid()
    ensures r.Ok? ==> r.value == SecurityPolicy(networkDisabled, readOnlyRootfs, memoryLimitMb,
                                               cpuPeriod, cpuQuota, pidsLimit, tmpfsSizeMb,
                                               timeoutSeconds, noNewPrivileges, capDrop)
    ensures !networkDisabled ==> r == Err(ValueError(NetworkMessage))
    ensures r.Err? ==> r.error.ValueError?
  {
    if !networkDisabled then Err(ValueError(NetworkMessage))
    else if memoryLimitMb <= 0 then Err(ValueError("memory_limit_mb must be a positive integer."))
    else if timeoutSeconds <= 0 then Err(ValueError("timeout_seconds must be a positive integer."))
    else if pidsLimit <= 0 then Err(ValueError("pids_limit must be a positive integer."))
    else if cpuPeriod <= 0 then Err(ValueError("cpu_period must be a positive integer."))
    else if cpuQuota <= 0 then Err(ValueError("cpu_quota must be a positive integer."))
    else if tmpfsSizeMb <= 0 then Err(ValueError("tmpfs_size_mb must be a positive integer."))
    else Ok(SecurityPolicy(networkDisabled, readOnlyRootfs, memoryLimitMb, cpuPeriod, cpuQuota,
                           pidsLimit, tmpfsSizeMb, timeoutSeconds, noNewPrivileges, capDrop))
  }

  /** The worker's policy: memory, timeout and pids from the job's limits,
      the tmpfs size from its disk limit, every other field at its default. */
  function PolicyFromLimits(l: Job.ResourceLimits): Result<SecurityPolicy>
  {
    NewPolicy(true, true, l.memoryMb, 100000, 100000, l.pidsLimit, l.diskMb,
              l.timeoutSeconds, true, ["ALL"])
  }

  /** Valid job limits always give a policy, and the policy locks the
      network, the root filesystem and privileges while carrying the limits. */
  lemma PolicyFromValidLimits(l: Job.ResourceLimits)
    requires l.Valid()
    ensures PolicyFromLimits(l).Ok?
    ensures var p := PolicyFromLimits(l).value;
      p.networkDisabled && p.readOnlyRootfs && p.noNewPrivileges && p.capDrop == ["ALL"]
      && p.memoryLimitMb == l.memoryMb && p.timeoutSeconds == l.timeoutSeconds
      && p.pidsLimit == l.pidsLimit && p.tmpfsSizeMb == l.diskMb
  {
  }

  /** The Docker host configuration. */
  datatype HostConfig = HostConfig(
    networkMode: string,
    readOnly: bool,
    memLimit: string,
    memswapLimit: string,
    cpuPeriod: int,
    cpuQuota: int,
    pidsLimit: int,
    securityOpt: seq<string>,
    capDrop: seq<string>,
    tmpfs: map<string, string>)

  const TmpfsMount: string := "/tmp"

  function Megabytes(n: nat): string
  {
    NatToString(n) + "m"
  }

  /** How a `<n>m` size reads back: digits followed by `m`. */
  function ParseMegabytes(s: string): (r: Option<nat>)
    ensures r.Some? ==> |s| >= 2 && s[|s| - 1] == 'm'
  {
    if |s| >= 2 && s[|s| - 1] == 'm' && AllDigits(s[..|s| - 1]) then
      Some(ParseDigits(s[..|s| - 1]))
    else None
  }

  /** `to_container_config`: the network is off whatever the policy says,
      swap equals memory, and `/tmp` is a size-limited, non-executable
      mount. */
  function ToContainerConfig(p: SecurityPolicy): (c: HostConfig)
    requires p.Valid()
    ensures c.networkMode == "none"
    ensures c.memLimit == c.memswapLimit
    ensures ParseMegabytes(c.memLimit) == Some(p.memoryLimitMb as nat)
    ensures c.readOnly == p.readOnlyRootfs && c.capDrop == p.capDrop
    ensures c.cpuPeriod == p.cpuPeriod && c.cpuQuota == p.cpuQuota && c.pidsLimit == p.pidsLimit
    ensures c.securityOpt == if p.noNewPrivileges then ["no-new-privileges"] else []
    ensures c.tmpfs.Keys == {TmpfsMount}
    ensures c.tmpfs[TmpfsMount] == "size=" + Megabytes(p.tmpfsSizeMb) + ",noexec,nosuid"
  {
    var mem := Megabytes(p.memoryLimitMb);
    MegabytesRoundTrip(p.memoryLimitMb);
    HostConfig("none", p.readOnlyRootfs, mem, mem, p.cpuPeriod, p.cpuQuota, p.pidsLimit,
               if p.noNewPrivileges then ["no-new-privileges"] else [],
               p.capDrop,
               map[TmpfsMount := "size=" + Megabytes(p.tmpfsSizeMb) + ",noexec,nosuid"])
  }

  /** A size written as `<n>m` reads back as `n`. */
  lemma MegabytesRoundTrip(n: nat)
    ensures ParseMegabytes(Megabytes(n)) == Some(n)
  {
    var s := Megabytes(n);
    assert s[..|s| - 1] == NatToString(n);
    ParseNatToString(n);
  }
}
