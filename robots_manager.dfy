/**
 * The registry of inspection rails by host string (InspectRobotsManager)
 * and its periodic reconcile sweep over the device list. The device list
 * is an input (None for a device without host); the connect tasks the
 * sweep submits to the thread pool are kept in `tasks` and run by a
 * separate step, RunConnectTask.
 */
module Registry {
  import opened Wrappers
  import opened Robot
  import opened Seqs
  import FrameParser

  const INT_MIN: int := -0x8000_0000
  const INT_MAX: int := 0x7FFF_FFFF

  // ---------------------------------------------------------------------
  // The host string: split on ':' and parse the port as a Java int
  // ---------------------------------------------------------------------

  /** All the ':'-separated fields of s, empty ones included. */
  function SplitFields(s: string): (r: seq<string>)
    ensures |r| >= 1
  {
    if s == [] then [[]]
    else
      var rest := SplitFields(s[1..]);
      if s[0] == ':' then [[]] + rest else [[s[0]] + rest[0]] + rest[1..]
  }

  /** The fields joined back with ':' between them. */
  function JoinFields(fs: seq<string>): string
    requires |fs| >= 1
  {
    if |fs| == 1 then fs[0] else fs[0] + ":" + JoinFields(fs[1..])
  }

  /** Java's split drops the empty strings at the end of the field list. */
  function DropTrailingEmpty(fs: seq<string>): seq<string> {
    if fs == [] then []
    else if fs[|fs| - 1] == [] then DropTrailingEmpty(fs[..|fs| - 1])
    else fs
  }

  /** What dropping keeps: a prefix of the fields that does not end in an empty field, with only empty fields after it. */
  lemma {:induction false} DropTrailingEmptyShape(fs: seq<string>)
    ensures var r := DropTrailingEmpty(fs);
            |r| <= |fs| && r == fs[..|r|]
            && (r == [] || r[|r| - 1] != [])
            && forall k :: |r| <= k < |fs| ==> fs[k] == []
  {
    if fs != [] && fs[|fs| - 1] == [] {
      DropTrailingEmptyShape(fs[..|fs| - 1]);
    }
  }

  /** host.split(":"): the whole string when it has no ':', else its fields without the trailing empty ones. */
  function JavaSplit(s: string): seq<string> {
    if ':' !in s then [s] else DropTrailingEmpty(SplitFields(s))
  }

  predicate IsDigit(c: char) {
    '0' <= c <= '9'
  }

  predicate AllDigits(s: string) {
    forall k :: 0 <= k < |s| ==> IsDigit(s[k])
  }

  /** The decimal value of a digit string, accumulated left to right. */
  function DigitsValue(s: string): nat
    requires AllDigits(s)
  {
    if s == [] then 0
    else DigitsValue(s[..|s| - 1]) * 10 + (s[|s| - 1] - '0') as int
  }

  /**
   * Integer.parseInt(s): an optional sign and at least one digit, with a
   * value in the range of a 32-bit int; anything else is the
   * NumberFormatException.
   */
  function ParseInt(s: string): (r: Option<int>)
    ensures r.Some? ==> INT_MIN <= r.value <= INT_MAX
  {
    if s == [] then None
    else if s[0] == '-' || s[0] == '+' then
      if |s| == 1 || !AllDigits(s[1..]) then None
      else
        var v: int := if s[0] == '-' then -(DigitsValue(s[1..]) as int) else DigitsValue(s[1..]);
        if INT_MIN <= v <= INT_MAX then Some(v) else None
    else if !AllDigits(s) then None
    else if DigitsValue(s) <= INT_MAX then Some(DigitsValue(s))
    else None
  }

  datatype HostPort = HostPort(ip: string, port: int)

  /**
   * The address the sweep reads from a host string: pieces[0] and the int
   * in pieces[1]. None stands for the exception a host without a second
   * piece or with a non-numeric port throws.
   */
  function HostAddress(host: string): Option<HostPort> {
    var pieces := JavaSplit(host);
    if |pieces| < 2 then None
    else match ParseInt(pieces[1])
      case None => None
      case Some(port) => Some(HostPort(pieces[0], port))
  }

  /** The decimal digits of n, as Integer.toString writes them. */
  function Decimal(n: nat): string {
    if n < 10 then [('0' as int + n) as char]
    else Decimal(n / 10) + [('0' as int + n % 10) as char]
  }

  /** Integer.toString of an int: a '-' before the digits of a negative value. */
  function IntString(v: int): string {
    if v < 0 then "-" + Decimal(-v) else Decimal(v)
  }

  /** The host string an address is written as: ip + ":" + port. */
  function HostString(a: HostPort): string {
    a.ip + ":" + IntString(a.port)
  }

  /** Splitting and joining are inverse: the fields of s joined back give s, and no field holds a ':'. */
  lemma {:induction false} JoinSplit(s: string)
    ensures JoinFields(SplitFields(s)) == s
    ensures forall k :: 0 <= k < |SplitFields(s)| ==> ':' !in SplitFields(s)[k]
  {
    if s != [] {
      var rest := SplitFields(s[1..]);
      JoinSplit(s[1..]);
      if s[0] == ':' {
        assert SplitFields(s)[1..] == rest;
      } else {
        var fs := SplitFields(s);
        assert fs[0] == [s[0]] + rest[0];
        if |rest| > 1 {
          assert fs[1..] == rest[1..];
          assert JoinFields(rest) == rest[0] + ":" + JoinFields(rest[1..]);
        }
        assert s == [s[0]] + s[1..];
      }
    }
  }

  lemma {:induction false} SplitColonFree(a: string)
    requires ':' !in a
    ensures SplitFields(a) == [a]
  {
    if a != [] {
      SplitColonFree(a[1..]);
      assert a == [a[0]] + a[1..];
    }
  }

  lemma {:induction false} SplitAtColon(a: string, b: string)
    requires ':' !in a
    ensures SplitFields(a + ":" + b) == [a] + SplitFields(b)
  {
    if a == [] {
      assert a + ":" + b == [':'] + b;
      assert (a + ":" + b)[1..] == b;
    } else {
      SplitAtColon(a[1..], b);
      assert (a + ":" + b)[1..] == a[1..] + ":" + b;
      assert [a[0]] + a[1..] == a;
    }
  }

  /** Joining colon-free fields and splitting again gives the fields back. */
  lemma {:induction false} SplitJoin(fs: seq<string>)
    requires |fs| >= 1
    requires forall k :: 0 <= k < |fs| ==> ':' !in fs[k]
    ensures SplitFields(JoinFields(fs)) == fs
  {
    if |fs| == 1 {
      SplitColonFree(fs[0]);
    } else {
      SplitJoin(fs[1..]);
      SplitAtColon(fs[0], JoinFields(fs[1..]));
      assert fs == [fs[0]] + fs[1..];
    }
  }

  lemma {:induction false} DecimalDigits(n: nat)
    ensures |Decimal(n)| >= 1
    ensures AllDigits(Decimal(n))
    ensures DigitsValue(Decimal(n)) == n
    ensures ':' !in Decimal(n) && Decimal(n)[0] != '-' && Decimal(n)[0] != '+'
  {
    if n >= 10 {
      DecimalDigits(n / 10);
      var d := Decimal(n);
      assert d[..|d| - 1] == Decimal(n / 10);
      assert d[0] == Decimal(n / 10)[0];
    }
  }

  /** Integer.parseInt reads back what Integer.toString writes, over the whole int range. */
  lemma ParseIntString(v: int)
    requires INT_MIN <= v <= INT_MAX
    ensures ParseInt(IntString(v)) == Some(v)
    ensures |IntString(v)| >= 1 && ':' !in IntString(v)
  {
    if v < 0 {
      DecimalDigits(-v);
      assert IntString(v)[1..] == Decimal(-v);
    } else {
      DecimalDigits(v);
    }
  }

  /**
   * The sweep reads back the address a robot's host string is written
   * from: ip + ":" + port parses to that ip and port whenever the ip has
   * no ':' and the port is an int.
   */
  lemma HostRoundTrip(a: HostPort)
    requires ':' !in a.ip && INT_MIN <= a.port <= INT_MAX
    ensures HostAddress(HostString(a)) == Some(a)
  {
    var p := IntString(a.port);
    ParseIntString(a.port);
    SplitJoin([a.ip, p]);
    assert JoinFields([a.ip, p]) == HostString(a);
    assert ':' in HostString(a) by {
      assert HostString(a)[|a.ip|] == ':';
    }
    assert JavaSplit(HostString(a)) == [a.ip, p];
  }

  /** A host without ':' has no port piece: the sweep throws on it. */
  lemma NoColonNoAddress(host: string)
    requires ':' !in host
    ensures HostAddress(host) == None
  {
  }

  /** A host whose port piece is not an int throws, whatever else it holds. */
  lemma BadPortNoAddress(host: string)
    requires |JavaSplit(host)| >= 2 && ParseInt(JavaSplit(host)[1]).None?
    ensures HostAddress(host) == None
  {
  }

  // ---------------------------------------------------------------------
  // The reconcile sweep, as a function of the device list and the
  // connection status of the registered robots
  // ---------------------------------------------------------------------

  /** A connect task submitted to the thread pool: the listed host and its address. */
  datatype ConnectTask = ConnectTask(host: string, address: HostPort)

  /** What the forEach body does with one device. */
  datatype Action = Skip | Abort | Keep | Remove(host: string) | Submit(task: ConnectTask)

  /**
   * The forEach body, given the registry statuses: skip a device without
   * host, throw on a malformed host, keep a connected robot, remove a
   * disconnected one, and submit a connect task for a host without robot.
   */
  function Decide(d: Option<string>, status: map<string, bool>): Action {
    if d.None? || d.value == [] then Skip
    else match HostAddress(d.value)
      case None => Abort
      case Some(address) =>
        if d.value in status then (if status[d.value] then Keep else Remove(d.value))
        else Submit(ConnectTask(d.value, address))
  }

  /** Where a sweep ends: the registry's statuses, the tasks submitted, and whether a malformed host aborted it. */
  datatype SweepResult = SweepResult(status: map<string, bool>, submitted: seq<ConnectTask>, aborted: bool)

  /** The forEach over the device list, from the given registry statuses and tasks already submitted. */
  function SweepFrom(devices: seq<Option<string>>, status: map<string, bool>, submitted: seq<ConnectTask>): SweepResult
    decreases |devices|
  {
    if devices == [] then SweepResult(status, submitted, false)
    else match Decide(devices[0], status)
      case Abort => SweepResult(status, submitted, true)
      case Remove(host) => SweepFrom(devices[1..], status - {host}, submitted)
      case Submit(t) => SweepFrom(devices[1..], status, submitted + [t])
      case _ => SweepFrom(devices[1..], status, submitted)
  }

  /** One step of the sweep: the decision for device i, then the sweep of the devices after it. */
  lemma SweepStep(devices: seq<Option<string>>, i: nat, status: map<string, bool>, submitted: seq<ConnectTask>)
    requires i < |devices|
    ensures var a := Decide(devices[i], status);
            SweepFrom(devices[i..], status, submitted)
            == if a == Abort then SweepResult(status, submitted, true)
               else SweepFrom(devices[i + 1..], if a.Remove? then status - {a.host} else status,
                              submitted + if a.Submit? then [a.task] else [])
  {
    assert devices[i..][0] == devices[i] && devices[i..][1..] == devices[i + 1..];
    assert submitted + [] == submitted;
  }

  /** The host is listed: some device carries it. */
  predicate Listed(devices: seq<Option<string>>, host: string) {
    exists k :: 0 <= k < |devices| && devices[k] == Some(host)
  }

  /** A device whose host is set but cannot be parsed. */
  predicate Malformed(d: Option<string>) {
    d.Some? && d.value != [] && HostAddress(d.value).None?
  }

  /** The per-device decision, stated case by case. */
  lemma DecideCases(d: Option<string>, status: map<string, bool>)
    ensures Decide(d, status) == Skip <==> d.None? || d.value == []
    ensures Decide(d, status) == Abort <==> Malformed(d)
    ensures Decide(d, status).Keep? <==> !Malformed(d) && d.Some? && d.value != [] && d.value in status && status[d.value]
    ensures Decide(d, status).Remove? <==> !Malformed(d) && d.Some? && d.value != [] && d.value in status && !status[d.value]
    ensures Decide(d, status).Remove? ==> d == Some(Decide(d, status).host)
    ensures Decide(d, status).Submit? <==> !Malformed(d) && d.Some? && d.value != [] && d.value !in status
    ensures Decide(d, status).Submit? ==>
              d == Some(Decide(d, status).task.host) && HostAddress(d.value) == Some(Decide(d, status).task.address)
  {
  }

  /** Listed in the tail of a device list means listed in the list. */
  lemma ListedTail(devices: seq<Option<string>>, h: string)
    requires devices != [] && Listed(devices[1..], h)
    ensures Listed(devices, h)
  {
    var k :| 0 <= k < |devices[1..]| && devices[1..][k] == Some(h);
    assert devices[k + 1] == Some(h);
  }

  /**
   * The sweep only removes: every robot left was there before with the
   * same status, and a host that is not listed is never touched.
   */
  lemma {:induction false} SweepOnlyRemovesListed(devices: seq<Option<string>>, status: map<string, bool>, submitted: seq<ConnectTask>)
    ensures var r := SweepFrom(devices, status, submitted);
            forall h :: h in r.status ==> h in status && r.status[h] == status[h]
    ensures forall h :: h in status && !Listed(devices, h) ==> h in SweepFrom(devices, status, submitted).status
    decreases |devices|
  {
    if devices != [] {
      var rest := devices[1..];
      forall h | Listed(rest, h) ensures Listed(devices, h) {
        ListedTail(devices, h);
      }
      DecideCases(devices[0], status);
      match Decide(devices[0], status)
      case Abort =>
      case Remove(host) => SweepOnlyRemovesListed(rest, status - {host}, submitted);
      case Submit(t) => SweepOnlyRemovesListed(rest, status, submitted + [t]);
      case Keep => SweepOnlyRemovesListed(rest, status, submitted);
      case Skip => SweepOnlyRemovesListed(rest, status, submitted);
    }
  }

  /** A robot that is connected survives the sweep. */
  lemma {:induction false} ConnectedKept(devices: seq<Option<string>>, status: map<string, bool>, submitted: seq<ConnectTask>, h: string)
    requires h in status && status[h]
    ensures h in SweepFrom(devices, status, submitted).status
    decreases |devices|
  {
    if devices != [] {
      var rest := devices[1..];
      DecideCases(devices[0], status);
      match Decide(devices[0], status)
      case Abort =>
      case Remove(host) => ConnectedKept(rest, status - {host}, submitted, h);
      case Submit(t) => ConnectedKept(rest, status, submitted + [t], h);
      case Keep => ConnectedKept(rest, status, submitted, h);
      case Skip => ConnectedKept(rest, status, submitted, h);
    }
  }

  /** The sweep stops early exactly when some device carries a malformed host. */
  lemma {:induction false} SweepAborts(devices: seq<Option<string>>, status: map<string, bool>, submitted: seq<ConnectTask>)
    ensures SweepFrom(devices, status, submitted).aborted
            <==> exists k :: 0 <= k < |devices| && Malformed(devices[k])
    decreases |devices|
  {
    if devices != [] {
      var rest := devices[1..];
      DecideCases(devices[0], status);
      if !Malformed(devices[0]) {
        assert (exists k :: 0 <= k < |devices| && Malformed(devices[k]))
            <==> (exists k :: 0 <= k < |rest| && Malformed(rest[k])) by {
          if exists k :: 0 <= k < |devices| && Malformed(devices[k]) {
            var k :| 0 <= k < |devices| && Malformed(devices[k]);
            assert k > 0 && Malformed(rest[k - 1]);
          }
          if exists k :: 0 <= k < |rest| && Malformed(rest[k]) {
            var k :| 0 <= k < |rest| && Malformed(rest[k]);
            assert Malformed(devices[k + 1]);
          }
        }
        match Decide(devices[0], status)
        case Remove(host) => SweepAborts(rest, status - {host}, submitted);
        case Submit(t) => SweepAborts(rest, status, submitted + [t]);
        case Keep => SweepAborts(rest, status, submitted);
        case Skip => SweepAborts(rest, status, submitted);
      }
    }
  }

  /** Submitted tasks are never withdrawn by the rest of the sweep. */
  lemma {:induction false} SubmittedKept(devices: seq<Option<string>>, status: map<string, bool>, submitted: seq<ConnectTask>)
    ensures var r := SweepFrom(devices, status, submitted);
            |submitted| <= |r.submitted| && r.submitted[..|submitted|] == submitted
    decreases |devices|
  {
    if devices != [] {
      var rest := devices[1..];
      match Decide(devices[0], status)
      case Abort =>
      case Remove(host) => SubmittedKept(rest, status - {host}, submitted);
      case Submit(t) =>
        SubmittedKept(rest, status, submitted + [t]);
        assert (submitted + [t])[..|submitted|] == submitted;
      case Keep => SubmittedKept(rest, status, submitted);
      case Skip => SubmittedKept(rest, status, submitted);
    }
  }

  /**
   * A sweep that runs to the end removes every listed robot that is
   * disconnected, and submits a connect task for every listed host that
   * has no robot.
   */
  lemma {:induction false} SweepHandlesListed(devices: seq<Option<string>>, status: map<string, bool>, submitted: seq<ConnectTask>, h: string)
    requires h != [] && Listed(devices, h)
    requires !SweepFrom(devices, status, submitted).aborted
    ensures h in status && !status[h] ==> h !in SweepFrom(devices, status, submitted).status
    ensures h !in status ==> exists t :: t in SweepFrom(devices, status, submitted).submitted && t.host == h
    decreases |devices|
  {
    var rest := devices[1..];
    DecideCases(devices[0], status);
    if devices[0] == Some(h) {
      match Decide(devices[0], status)
      case Remove(host) =>
        SweepOnlyRemovesListed(rest, status - {host}, submitted);
      case Submit(t) =>
        SubmittedKept(rest, status, submitted + [t]);
        assert t == (submitted + [t])[|submitted|];
        assert t in SweepFrom(devices, status, submitted).submitted;
      case Keep =>
    } else {
      var k :| 0 <= k < |devices| && devices[k] == Some(h);
      assert rest[k - 1] == Some(h);
      match Decide(devices[0], status)
      case Remove(host) =>
        SweepHandlesListed(rest, status - {host}, submitted, h);
      case Submit(t) =>
        SweepHandlesListed(rest, status, submitted + [t], h);
      case Keep => SweepHandlesListed(rest, status, submitted, h);
      case Skip => SweepHandlesListed(rest, status, submitted, h);
    }
  }

  /**
   * Every task the sweep submits is for a listed host, with the address
   * parsed from it, and for a host that has no robot when the sweep ends.
   */
  lemma {:induction false} SubmittedAreListedAndAbsent(devices: seq<Option<string>>, status: map<string, bool>, submitted: seq<ConnectTask>)
    ensures var r := SweepFrom(devices, status, submitted);
            forall k :: |submitted| <= k < |r.submitted| ==>
              Listed(devices, r.submitted[k].host)
              && HostAddress(r.submitted[k].host) == Some(r.submitted[k].address)
              && r.submitted[k].host !in r.status
    decreases |devices|
  {
    if devices != [] {
      var rest := devices[1..];
      var r := SweepFrom(devices, status, submitted);
      var a := Decide(devices[0], status);
      DecideCases(devices[0], status);
      if a != Abort {
        var status' := if a.Remove? then status - {a.host} else status;
        var submitted' := submitted + if a.Submit? then [a.task] else [];
        assert devices[0..] == devices;
        SweepStep(devices, 0, status, submitted);
        SubmittedAreListedAndAbsent(rest, status', submitted');
        forall k | |submitted| <= k < |r.submitted|
          ensures Listed(devices, r.submitted[k].host)
          ensures HostAddress(r.submitted[k].host) == Some(r.submitted[k].address)
          ensures r.submitted[k].host !in r.status
        {
          if a.Submit? && k == |submitted| {
            SubmittedKept(rest, status', submitted');
            SweepOnlyRemovesListed(rest, status', submitted');
            assert r.submitted[k] == submitted'[k] == a.task;
            assert devices[0] == Some(a.task.host);
          } else {
            ListedTail(devices, r.submitted[k].host);
          }
        }
      }
    }
  }

  // ---------------------------------------------------------------------
  // The registry
  // ---------------------------------------------------------------------

  class InspectRobotsManager {
    /** Host string to robot. */
    var robots: map<string, InspectRobot>
    /** Connect tasks submitted and not yet run, in submission order. */
    var tasks: seq<ConnectTask>

    /** The connection status of every registered robot, by host. */
    function Status(): map<string, bool>
      reads this, robots.Values
    {
      map h | h in robots :: robots[h].connected
    }

    constructor ()
      ensures robots == map[] && tasks == []
    {
      robots := map[];
      tasks := [];
    }

    method GetInspectRobot(host: string) returns (r: InspectRobot?)
      ensures host in robots ==> r == robots[host]
      ensures host !in robots ==> r == null
    {
      r := if host in robots then robots[host] else null;
    }

    /** Registers a robot under a host, replacing any robot registered before. */
    method AddInspectRobot(host: string, r: InspectRobot)
      modifies this`robots
      ensures robots == old(robots)[host := r]
    {
      robots := robots[host := r];
    }

    /**
     * Disconnects and unregisters the robot of a host. An absent host only
     * raises the caught NullPointerException; the key is removed either way.
     */
    method RemoveInspectRobot(host: string)
      modifies this`robots, robots.Values`connected
      ensures robots == old(robots) - {host}
      ensures host in old(robots) ==> !old(robots)[host].connected
      ensures host in old(robots) ==>
                Status() == map h | h in robots :: old(robots[h].connected) && robots[h] != old(robots)[host]
      ensures host !in old(robots) ==> Status() == old(Status())
    {
      if host in robots {
        robots[host].Disconnect();
      }
      robots := robots - {host};
    }

    /**
     * One reconcile sweep over the device list. It ends with the registry
     * and the submitted tasks the sweep function computes from the
     * statuses it started from; `aborted` reports the exception of a
     * malformed host.
     */
    method Reconcile(devices: seq<Option<string>>) returns (aborted: bool)
      modifies this`robots, this`tasks, robots.Values`connected
      ensures var s := SweepFrom(devices, old(Status()), []);
              Status() == s.status && tasks == old(tasks) + s.submitted && aborted == s.aborted
      ensures forall h :: h in robots ==> h in old(robots) && robots[h] == old(robots)[h]
    {
      ghost var goal := SweepFrom(devices, Status(), []);
      ghost var submitted: seq<ConnectTask> := [];
      AppendNil(tasks);
      var i := 0;
      while i < |devices|
        invariant 0 <= i <= |devices|
        invariant forall h :: h in robots ==> h in old(robots) && robots[h] == old(robots)[h]
        invariant robots.Values <= old(robots).Values
        invariant tasks == old(tasks) + submitted
        invariant goal == SweepFrom(devices[i..], Status(), submitted)
      {
        ghost var st := Status();
        ghost var action := Decide(devices[i], st);
        SweepStep(devices, i, st, submitted);
        var abort := ReconcileDevice(devices[i]);
        if abort {
          return true;
        }
        if action.Submit? {
          AppendAssoc(old(tasks), submitted, [action.task]);
          submitted := submitted + [action.task];
        }
        i := i + 1;
      }
      aborted := false;
    }

    /**
     * The forEach body for one device: what Decide says, carried out on
     * the registry. A disconnected robot is disconnected again and
     * unregistered; a host without robot gets a connect task.
     */
    method ReconcileDevice(device: Option<string>) returns (abort: bool)
      modifies this`robots, this`tasks, robots.Values`connected
      ensures var action := Decide(device, old(Status()));
              abort == (action == Abort)
              && Status() == (if action.Remove? then old(Status()) - {action.host} else old(Status()))
              && tasks == old(tasks) + (if action.Submit? then [action.task] else [])
      ensures forall h :: h in robots ==> h in old(robots) && robots[h] == old(robots)[h]
      ensures robots.Values <= old(robots).Values
    {
      DecideCases(device, Status());
      if device.None? || device.value == [] {
        return false;
      }
      var host := device.value;
      var address := HostAddress(host);
      if address.None? {
        return true;
      }
      var robot := GetInspectRobot(host);
      if robot != null {
        var connected := robot.GetConnectionStatus();
        if !connected {
          ghost var before := Status();
          RemoveInspectRobot(host);
          assert Status() == before - {host} by {
            forall h | h in robots ensures Status()[h] == before[h] {
              if robots[h] == robot {
                assert !before[h];
              }
            }
          }
        }
      } else {
        tasks := tasks + [ConnectTask(host, address.value)];
      }
      abort := false;
    }

    /**
     * Runs the k-th submitted connect task: a new robot that connects is
     * registered under the task's host (replacing any robot registered in
     * the meantime); a failed connect registers nothing.
     */
    method RunConnectTask(k: nat, connectOk: bool, now: int)
      requires k < |tasks|
      modifies this`robots, this`tasks
      ensures tasks == old(tasks[..k] + tasks[k + 1..])
      ensures !connectOk ==> robots == old(robots)
      ensures connectOk ==>
                var host := old(tasks[k].host);
                host in robots && fresh(robots[host]) && robots[host].connected
                && robots == old(robots)[host := robots[host]]
      ensures connectOk ==>
                var r := robots[old(tasks[k].host)];
                r.Valid() && r.dataBuffer == [] && r.Asm() == FrameParser.Assembler(0, false)
                && r.events == [] && r.sent == [] && r.lastHeartbeat == now
    {
      var task := tasks[k];
      tasks := tasks[..k] + tasks[k + 1..];
      var robot := new InspectRobot(now);
      var ok := robot.Connect(connectOk);
      if ok {
        AddInspectRobot(task.host, robot);
      }
    }
  }
}
