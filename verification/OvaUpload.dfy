/** `_upload_disks` with the objects it updates: the progress cell of
    `_LeaseProgress` and the `_CountingReader` around each file. */
module OvaUpload {
  import opened Basics
  import opened OvaSizes
  import LeaseProtocol
  import Strings

  const CHUNK := 4 * 1024 * 1024

  class LeaseProgress {
    var percent: int
    /** Every value the cell was given. */
    ghost var updates: seq<int>

    constructor ()
      ensures percent == 0 && updates == []
    {
      percent, updates := 0, [];
    }

    method SetPercent(pct: real)
      modifies this
      ensures pct < 0.0 ==> percent == 0
      ensures 0.0 <= pct < 101.0 ==> percent as real <= pct < (percent + 1) as real
      ensures pct >= 101.0 ==> percent == 100
      ensures updates == old(updates) + [percent]
    {
      var whole := pct.Floor;
      percent := if whole < 0 then 0 else if whole > 100 then 100 else whole;
      updates := updates + [percent];
    }
  }

  lemma QuotientTimes(a: real, t: real)
    requires t > 0.0
    ensures a / t * t == a
  {
  }

  lemma Quotient(a: nat, t: nat, q: int)
    requires t > 0 && q * t <= a < (q + 1) * t
    ensures q == a / t
  {
    var p := a / t;
    assert p * t <= a < (p + 1) * t;
    if p < q {
      MulMonotone(p + 1, q, t);
    } else if q < p {
      MulMonotone(q + 1, p, t);
    }
  }

  lemma FloorIsQuotient(a: nat, t: nat, q: int)
    requires t > 0 && q as real <= a as real / t as real < (q + 1) as real
    ensures q == a / t
  {
    var x := a as real / t as real;
    QuotientTimes(a as real, t as real);
    assert (q * t) as real == q as real * t as real;
    assert ((q + 1) * t) as real == (q + 1) as real * t as real;
    Quotient(a, t, q);
  }

  /** How many bytes one `read(n)` yields of `left` unread ones: no argument or -1
      asks for a chunk, any other negative number for the rest. */
  function Served(ask: Option<int>, left: nat): (n: nat)
    ensures n <= left
  {
    var want := if ask == None || ask == Some(-1) then CHUNK else ask.value;
    if want < 0 || want > left then left else want
  }

  /** No argument and -1 ask for four mebibytes, another negative number for all that
      is left, any other number for that many bytes; what is asked is served as far
      as there is something left. */
  lemma ServedIs(n: int, left: nat)
    ensures Served(None, left) == Served(Some(-1), left) == Served(Some(4194304), left)
    ensures n < -1 ==> Served(Some(n), left) == left
    ensures 0 <= n <= left ==> Served(Some(n), left) == n
    ensures n > left ==> Served(Some(n), left) == left
  {
  }

  class CountingReader {
    var left: nat
    const prior: nat
    const total: nat
    const progress: LeaseProgress
    var read: nat

    constructor (size: nat, prior: nat, total: nat, progress: LeaseProgress)
      ensures left == size && read == 0
      ensures this.prior == prior && this.total == total && this.progress == progress
    {
      left, read := size, 0;
      this.prior, this.total, this.progress := prior, total, progress;
    }

    method Read(ask: Option<int>) returns (chunk: nat)
      requires total > 0
      modifies this, progress
      ensures chunk == Served(ask, old(left)) && left == old(left) - chunk && read == old(read) + chunk
      ensures progress.updates == old(progress.updates) + if chunk > 0 then [Percent(prior + read, total)] else []
    {
      chunk := Served(ask, left);
      left := left - chunk;
      if chunk > 0 {
        read := read + chunk;
        var pct := (100 * (prior + read)) as real / total as real;
        progress.SetPercent(pct);
        if pct < 101.0 {
          FloorIsQuotient(100 * (prior + read), total, progress.percent);
        } else {
          FloorIsQuotient(100 * (prior + read), total, pct.Floor);
        }
      }
    }
  }

  // ----- what the upload is given -----

  datatype DeviceUrl = DeviceUrl(importKey: Option<string>, key: string, url: string)

  datatype OvfItem = OvfItem(path: string, deviceId: string, size: Option<nat>)

  datatype Member = Member(name: string, size: nat, readable: bool)

  /** What the HTTP client does with one file: the reads it makes, then its answer. */
  datatype Answer = Status(code: nat) | Raises

  datatype Put = Put(asks: seq<Option<int>>, answer: Answer)

  /** A PUT with the headers that differ between files and sessions. */
  datatype Request = Request(url: string, member: Member, contentLength: nat, contentType: string, cookie: string)

  datatype UploadResult = Uploaded | NoDevice | NotInArchive | Unreadable | HttpFailed(code: nat) | PutRaised

  function DeviceKey(d: DeviceUrl): string {
    if d.importKey.Or("") != "" then d.importKey.value else d.key
  }

  /** The device a dict built over the list holds for `id`: the last one with that key. */
  function DeviceFor(devices: seq<DeviceUrl>, id: string): Option<DeviceUrl> {
    if devices == [] then None
    else
      var last := devices[|devices| - 1];
      if DeviceKey(last) == id then Some(last) else DeviceFor(devices[..|devices| - 1], id)
  }

  function MemberNamed(members: seq<Member>, name: string): Option<Member> {
    if members == [] then None
    else
      var last := members[|members| - 1];
      if last.name == name then Some(last) else MemberNamed(members[..|members| - 1], name)
  }

  function Basename(path: string): string {
    if path == [] then ""
    else if path[|path| - 1] == '/' then ""
    else Basename(path[..|path| - 1]) + [path[|path| - 1]]
  }

  /** The first name in the archive with the given base name. */
  function FirstWithBase(members: seq<Member>, base: string): Option<string> {
    if members == [] then None
    else if Basename(members[0].name) == base then Some(members[0].name)
    else FirstWithBase(members[1..], base)
  }

  /** An exact name wins; otherwise the first name with the same last component. */
  function Resolve(members: seq<Member>, path: string): Option<Member> {
    if MemberNamed(members, path).Some? then MemberNamed(members, path)
    else
      match FirstWithBase(members, Basename(path))
      case None => None
      case Some(name) => MemberNamed(members, name)
  }

  lemma {:induction false} NamedHas(members: seq<Member>, name: string)
    ensures MemberNamed(members, name).None? <==> forall m :: m in members ==> m.name != name
    ensures MemberNamed(members, name).Some? ==>
      MemberNamed(members, name).value in members && MemberNamed(members, name).value.name == name
  {
    if members == [] {
    } else {
      NamedHas(members[..|members| - 1], name);
      assert members == members[..|members| - 1] + [members[|members| - 1]];
    }
  }

  lemma {:induction false} FirstBaseHas(members: seq<Member>, base: string)
    ensures FirstWithBase(members, base).None? <==> forall m :: m in members ==> Basename(m.name) != base
    ensures FirstWithBase(members, base).Some? ==>
      exists m :: m in members && m.name == FirstWithBase(members, base).value && Basename(m.name) == base
  {
    if members == [] {
    } else {
      FirstBaseHas(members[1..], base);
    }
  }

  /** A path resolves exactly when the archive holds a member with its last
      component, and then to one whose last component is the same. */
  lemma ResolveByBasename(members: seq<Member>, path: string)
    ensures Resolve(members, path).None? <==> forall m :: m in members ==> Basename(m.name) != Basename(path)
    ensures Resolve(members, path).Some? ==>
      Resolve(members, path).value in members && Basename(Resolve(members, path).value.name) == Basename(path)
  {
    NamedHas(members, path);
    FirstBaseHas(members, Basename(path));
    if FirstWithBase(members, Basename(path)).Some? {
      NamedHas(members, FirstWithBase(members, Basename(path)).value);
    }
  }

  /** `r` is the URL with the host in the place of every star: the parts between
      the stars joined by the host; so a URL with one star has the host there, and
      one without is left as it is. */
  ghost predicate StarsReplaced(url: string, host: string, r: string) {
    && r == Strings.JoinWith(Strings.Split(url, '*'), host)
    && ('*' !in url ==> r == url)
    && forall a, b :: url == a + ['*'] + b && '*' !in a && '*' !in b ==> r == a + host + b
  }

  lemma ReplacedStars(url: string, host: string)
    ensures StarsReplaced(url, host, Strings.Replace(url, '*', host))
  {
    Strings.ReplaceIsJoin(url, '*', host);
    if '*' !in url {
      Strings.ReplaceOnce(url, '*', "", host);
    }
    forall a, b | url == a + ['*'] + b && '*' !in a && '*' !in b
      ensures Strings.Replace(url, '*', host) == a + host + b
    {
      Strings.ReplaceOnce(a, '*', b, host);
    }
  }

  predicate EndsWith(s: string, suffix: string) {
    |suffix| <= |s| && s[|s| - |suffix|..] == suffix
  }

  /** Disks, by the end of their path in any case, have a type of their own. */
  function ContentType(path: string): string {
    if EndsWith(Strings.Lower(path), ".vmdk") then "application/x-vnd.vmware-streamVmdk" else "application/octet-stream"
  }

  ghost predicate GoesByKey(d: DeviceUrl, id: string) {
    match d.importKey
    case None => d.key == id
    case Some(k) => if k == "" then d.key == id else k == id
  }

  /** The device of an id is the last one with that key: its import key if that is
      given, its own key otherwise. */
  ghost predicate IsDeviceOf(devices: seq<DeviceUrl>, id: string, i: int) {
    && 0 <= i < |devices| && GoesByKey(devices[i], id)
    && forall j :: i < j < |devices| ==> !GoesByKey(devices[j], id)
  }

  lemma KeyIs(d: DeviceUrl, id: string)
    ensures GoesByKey(d, id) <==> DeviceKey(d) == id
  {
  }

  lemma {:induction false} DeviceForIs(devices: seq<DeviceUrl>, id: string)
    ensures DeviceFor(devices, id).None? <==> forall i :: 0 <= i < |devices| ==> !GoesByKey(devices[i], id)
    ensures DeviceFor(devices, id).Some? ==>
      exists i :: IsDeviceOf(devices, id, i) && DeviceFor(devices, id).value == devices[i]
  {
    hide GoesByKey, DeviceKey;
    if devices == [] {
    } else {
      var front, last := devices[..|devices| - 1], devices[|devices| - 1];
      DeviceForIs(front, id);
      KeyIs(last, id);
      if GoesByKey(last, id) {
        assert IsDeviceOf(devices, id, |devices| - 1);
      } else if DeviceFor(front, id).Some? {
        var i :| IsDeviceOf(front, id, i) && DeviceFor(front, id).value == front[i];
        assert IsDeviceOf(devices, id, i) && devices[i] == front[i];
      }
    }
  }

  /** The last component of a path is what follows its last slash. */
  lemma {:induction false} BasenameIs(a: string, b: string)
    requires '/' !in b
    ensures Basename(b) == b && Basename(a + "/" + b) == b
    decreases |b|
  {
    if b == "" {
      assert (a + "/" + b)[|a|] == '/';
    } else {
      var front := b[..|b| - 1];
      BasenameIs(a, front);
      assert (a + "/" + b)[..|a + "/" + b| - 1] == a + "/" + front;
      assert front + [b[|b| - 1]] == b;
    }
  }

  /** `m` is what a dict over the members holds under a name: the last one so named. */
  ghost predicate IsNamed(members: seq<Member>, name: string, m: Member) {
    exists i :: 0 <= i < |members| && members[i] == m && m.name == name
      && forall j :: i < j < |members| ==> members[j].name != name
  }

  lemma {:induction false} MemberNamedIs(members: seq<Member>, name: string)
    ensures MemberNamed(members, name).Some? ==> IsNamed(members, name, MemberNamed(members, name).value)
  {
    if members == [] {
    } else {
      var front, last := members[..|members| - 1], members[|members| - 1];
      MemberNamedIs(front, name);
      if last.name != name && MemberNamed(front, name).Some? {
        var i :| 0 <= i < |front| && front[i] == MemberNamed(front, name).value && front[i].name == name
          && forall j :: i < j < |front| ==> front[j].name != name;
        assert members[i] == front[i];
      }
    }
  }

  /** The first member in the archive with the last component of the path. */
  ghost predicate FirstSharing(members: seq<Member>, path: string, i: int) {
    && 0 <= i < |members| && Basename(members[i].name) == Basename(path)
    && forall j :: 0 <= j < i ==> Basename(members[j].name) != Basename(path)
  }

  lemma {:induction false} FirstBaseIs(members: seq<Member>, base: string)
    ensures FirstWithBase(members, base).Some? ==>
      exists i :: 0 <= i < |members| && members[i].name == FirstWithBase(members, base).value
        && Basename(members[i].name) == base && forall j :: 0 <= j < i ==> Basename(members[j].name) != base
  {
    if members == [] {
    } else if Basename(members[0].name) == base {
      assert members[0].name == FirstWithBase(members, base).value;
    } else {
      FirstBaseIs(members[1..], base);
      if FirstWithBase(members[1..], base).Some? {
        var i :| 0 <= i < |members[1..]| && members[1..][i].name == FirstWithBase(members[1..], base).value
          && Basename(members[1..][i].name) == base
          && forall j :: 0 <= j < i ==> Basename(members[1..][j].name) != base;
        assert members[i + 1] == members[1..][i];
        forall j | 0 <= j < i + 1
          ensures Basename(members[j].name) != base
        {
          assert j > 0 ==> members[j] == members[1..][j - 1];
        }
      }
    }
  }

  /** A member with the very path is taken before any with its last component; of
      those the first name counts. */
  lemma ResolveIs(members: seq<Member>, path: string)
    ensures (exists m :: m in members && m.name == path) ==>
      Resolve(members, path).Some? && IsNamed(members, path, Resolve(members, path).value)
    ensures (forall m :: m in members ==> m.name != path) && Resolve(members, path).Some? ==>
      exists i :: FirstSharing(members, path, i) && IsNamed(members, members[i].name, Resolve(members, path).value)
  {
    NamedHas(members, path);
    MemberNamedIs(members, path);
    if MemberNamed(members, path).None? {
      FirstBaseIs(members, Basename(path));
      if FirstWithBase(members, Basename(path)).Some? {
        var name := FirstWithBase(members, Basename(path)).value;
        NamedHas(members, name);
        MemberNamedIs(members, name);
      }
    }
  }

  /** A path that ends in a dot and `vmdk`, in capitals or not, is a disk. */
  lemma ContentTypeIs(path: string)
    ensures ContentType(path) ==
      if |path| >= 5 && Strings.Spells(path[|path| - 5..], ".vmdk") then "application/x-vnd.vmware-streamVmdk"
      else "application/octet-stream"
  {
    hide Strings.Lower;
    Strings.LowerTail(path, |path|);
    if |path| >= 5 {
      Strings.LowerSpells(path[|path| - 5..], ".vmdk");
      Strings.LowerTail(path, |path| - 5);
    }
  }

  function FileOf(devices: seq<DeviceUrl>, members: seq<Member>, item: OvfItem): FileItem {
    var m := Resolve(members, item.path);
    FileItem(item.size, if m.Some? then m.value.size else 0,
             DeviceFor(devices, item.deviceId).Some? && m.Some? && m.value.readable)
  }

  function Files(devices: seq<DeviceUrl>, members: seq<Member>, items: seq<OvfItem>): seq<FileItem> {
    seq(|items|, k requires 0 <= k < |items| => FileOf(devices, members, items[k]))
  }

  /** The percentages one file's reads report. */
  function FileReports(prior: nat, total: nat, left: nat, read: nat, asks: seq<Option<int>>): seq<int>
    requires total > 0
  {
    if asks == [] then []
    else
      var n := Served(asks[0], left);
      (if n > 0 then [Percent(prior + read + n, total)] else [])
      + FileReports(prior, total, left - n, read + n, asks[1..])
  }

  /** The percentages reported while the first `k` files are sent. */
  function Reports(files: seq<FileItem>, puts: seq<Put>, k: nat): seq<int>
    requires k <= |files| && k <= |puts|
  {
    if k == 0 then []
    else Reports(files, puts, k - 1)
         + FileReports(PriorSent(files, k - 1), Total(files), files[k - 1].member, 0, puts[k - 1].asks)
  }

  /** What the HTTP client is asked to send for file `k`. */
  ghost predicate Sends(host: string, cookie: string, devices: seq<DeviceUrl>, members: seq<Member>, item: OvfItem,
                        q: Request) {
    && DeviceFor(devices, item.deviceId).Some?
    && Resolve(members, item.path).Some?
    && q.member == Resolve(members, item.path).value && q.member.readable
    && StarsReplaced(DeviceFor(devices, item.deviceId).value.url, host, q.url)
    && q.contentLength == Effective(FileOf(devices, members, item))
    && q.contentType == ContentType(item.path) && q.cookie == cookie
  }

  /** Where a request goes: the device's URL as it is when it has no star, with the
      host in the place of the star when it has one. */
  lemma SentTo(host: string, cookie: string, devices: seq<DeviceUrl>, members: seq<Member>, item: OvfItem, q: Request,
               i: int, a: string, b: string)
    requires Sends(host, cookie, devices, members, item, q) && IsDeviceOf(devices, item.deviceId, i)
    requires '*' !in a && '*' !in b
    ensures devices[i].url == a ==> q.url == a
    ensures devices[i].url == a + "*" + b ==> q.url == a + host + b
  {
    DeviceForIs(devices, item.deviceId);
  }

  /** A file counts as available exactly when there is a request for it. */
  lemma AvailableIffSendable(host: string, cookie: string, devices: seq<DeviceUrl>, members: seq<Member>,
                             item: OvfItem)
    ensures FileOf(devices, members, item).available <==> exists q :: Sends(host, cookie, devices, members, item, q)
  {
    hide Resolve, DeviceFor, Effective, ContentType, StarsReplaced;
    var device, member := DeviceFor(devices, item.deviceId), Resolve(members, item.path);
    if device.Some? && member.Some? && member.value.readable {
      var url := Strings.Replace(device.value.url, '*', host);
      ReplacedStars(device.value.url, host);
      var size := Effective(FileOf(devices, members, item));
      assert Sends(host, cookie, devices, members, item,
                   Request(url, member.value, size, ContentType(item.path), cookie));
    }
  }

  lemma NothingSent(files: seq<FileItem>, puts: seq<Put>)
    ensures PriorSent(files, 0) == 0 && Reports(files, puts, 0) == []
  {
  }

  lemma SentFile(host: string, cookie: string, devices: seq<DeviceUrl>, members: seq<Member>, items: seq<OvfItem>,
                 puts: seq<Put>, k: nat, url: string)
    requires k < |items| == |puts|
    requires DeviceFor(devices, items[k].deviceId).Some? && Resolve(members, items[k].path).Some?
    requires Resolve(members, items[k].path).value.readable
    requires StarsReplaced(DeviceFor(devices, items[k].deviceId).value.url, host, url)
    ensures var files := Files(devices, members, items);
      var m := Resolve(members, items[k].path).value;
      var size := Effective(FileItem(items[k].size, m.size, true));
      && |files| == |items|
      && Sends(host, cookie, devices, members, items[k],
               Request(url, m, size, ContentType(items[k].path), cookie))
      && PriorSent(files, k + 1) == PriorSent(files, k) + size
      && Reports(files, puts, k + 1)
         == Reports(files, puts, k) + FileReports(PriorSent(files, k), Total(files), m.size, 0, puts[k].asks)
  {
    assert Files(devices, members, items)[k] == FileOf(devices, members, items[k]);
  }

  ghost predicate Accepted(put: Put) {
    put.answer.Status? && put.answer.code < 400
  }

  /** The reason `r` the upload stopped after `sent` requests. */
  ghost predicate StopsWith(r: UploadResult, sent: nat, devices: seq<DeviceUrl>, members: seq<Member>,
                            items: seq<OvfItem>, puts: seq<Put>)
    requires sent <= |items| == |puts|
  {
    match r
    case Uploaded => sent == |items| && forall k :: 0 <= k < sent ==> Accepted(puts[k])
    case HttpFailed(code) => sent > 0 && puts[sent - 1].answer == Status(code) && code >= 400
    case PutRaised => sent > 0 && puts[sent - 1].answer == Raises
    case NoDevice => sent < |items| && DeviceFor(devices, items[sent].deviceId).None?
    case NotInArchive =>
      sent < |items| && DeviceFor(devices, items[sent].deviceId).Some? && Resolve(members, items[sent].path).None?
    case Unreadable =>
      sent < |items| && DeviceFor(devices, items[sent].deviceId).Some? && Resolve(members, items[sent].path).Some?
      && !Resolve(members, items[sent].path).value.readable
  }

  // ----- the loops -----

  method IndexDevices(devices: seq<DeviceUrl>) returns (byDev: map<string, DeviceUrl>)
    ensures forall id :: DeviceFor(devices, id) == if id in byDev then Some(byDev[id]) else None
  {
    byDev := map[];
    for i := 0 to |devices|
      invariant forall id :: DeviceFor(devices[..i], id) == if id in byDev then Some(byDev[id]) else None
    {
      assert devices[..i + 1][..i] == devices[..i];
      byDev := byDev[DeviceKey(devices[i]) := devices[i]];
    }
    assert devices[..|devices|] == devices;
  }

  method SumDeclared(files: seq<FileItem>) returns (total: nat)
    ensures total == Total(files)
  {
    total := 0;
    for i := 0 to |files|
      invariant total == DeclaredSum(files[..i])
    {
      assert files[..i + 1] == files[..i] + [files[i]];
      DeclaredSumSplit(files[..i], [files[i]]);
      total := total + files[i].declared.Or(0);
    }
    assert files[..|files|] == files;
    if total == 0 {
      total := 1;
    }
  }

  lemma ReportsFrom(prior: nat, total: nat, left: nat, read: nat, asks: seq<Option<int>>, i: nat)
    requires total > 0 && i <= |asks|
    ensures FileReports(prior, total, left, read, asks[i..]) ==
      if i == |asks| then []
      else
        var n := Served(asks[i], left);
        (if n > 0 then [Percent(prior + read + n, total)] else [])
        + FileReports(prior, total, left - n, read + n, asks[i + 1..])
  {
    hide Served, Percent;
    if i < |asks| {
      assert asks[i..][1..] == asks[i + 1..];
    }
  }

  method PutFile(reader: CountingReader, put: Put) returns (answer: Answer)
    requires reader.total > 0
    modifies reader, reader.progress
    ensures answer == put.answer
    ensures reader.progress.updates == old(reader.progress.updates)
      + FileReports(reader.prior, reader.total, old(reader.left), old(reader.read), put.asks)
  {
    hide Served, Percent, FileReports;
    ghost var all := FileReports(reader.prior, reader.total, reader.left, reader.read, put.asks);
    ghost var done := [];
    assert put.asks[0..] == put.asks;
    for i := 0 to |put.asks|
      invariant reader.progress.updates == old(reader.progress.updates) + done
      invariant all == done + FileReports(reader.prior, reader.total, reader.left, reader.read, put.asks[i..])
    {
      ReportsFrom(reader.prior, reader.total, reader.left, reader.read, put.asks, i);
      var n := reader.Read(put.asks[i]);
      done := done + if n > 0 then [Percent(reader.prior + reader.read, reader.total)] else [];
    }
    ReportsFrom(reader.prior, reader.total, reader.left, reader.read, put.asks, |put.asks|);
    answer := put.answer;
  }

  /** One pass of the loop over the file items. */
  method SendFile(host: string, cookie: string, device: Option<DeviceUrl>, item: OvfItem, members: seq<Member>,
                  bytesSent: nat, total: nat, put: Put, progress: LeaseProgress)
    returns (r: UploadResult, request: Option<Request>, size: nat)
    requires total > 0
    modifies progress
    ensures var found := Resolve(members, item.path);
      if device == None then r == NoDevice && request == None
      else if found == None then r == NotInArchive && request == None
      else if !found.value.readable then r == Unreadable && request == None
      else
        && size == Effective(FileItem(item.size, found.value.size, true))
        && request.Some? && StarsReplaced(device.value.url, host, request.value.url)
        && request == Some(Request(request.value.url, found.value, size, ContentType(item.path), cookie))
        && r == (match put.answer
                 case Raises => PutRaised
                 case Status(code) => if code >= 400 then HttpFailed(code) else Uploaded)
    ensures progress.updates == old(progress.updates)
      + if request == None then [] else FileReports(bytesSent, total, request.value.member.size, 0, put.asks)
  {
    request, size := None, 0;
    if device == None {
      return NoDevice, None, 0;
    }
    var url := Strings.Replace(device.value.url, '*', host);
    ReplacedStars(device.value.url, host);
    var found := Resolve(members, item.path);
    if found == None {
      return NotInArchive, None, 0;
    }
    var member := found.value;
    size := if item.size.Or(0) != 0 then item.size.value else member.size;
    if !member.readable {
      return Unreadable, None, size;
    }
    var reader := new CountingReader(member.size, bytesSent, total, progress);
    var isVmdk := EndsWith(Strings.Lower(item.path), ".vmdk");
    var contentType := if isVmdk then "application/x-vnd.vmware-streamVmdk" else "application/octet-stream";
    request := Some(Request(url, member, size, contentType, cookie));
    var answer := PutFile(reader, put);
    match answer {
      case Raises => r := PutRaised;
      case Status(code) => r := if code >= 400 then HttpFailed(code) else Uploaded;
    }
  }

  /** Requests go out in the order of the file items, each with the resolved
      member, the device's URL and the effective size; they stop at the first
      item that cannot be sent or is not accepted, for the reason returned; and
      the progress cell has been given exactly the percentages of the reads. */
  method UploadDisks(host: string, cookie: string, devices: seq<DeviceUrl>, items: seq<OvfItem>, members: seq<Member>,
                     puts: seq<Put>, progress: LeaseProgress)
    returns (r: UploadResult, requests: seq<Request>)
    requires |puts| == |items|
    modifies progress
    ensures |requests| <= |items|
    ensures forall k :: 0 <= k < |requests| ==> Sends(host, cookie, devices, members, items[k], requests[k])
    ensures forall k :: 0 <= k < |requests| ==>
      Accepted(puts[k]) || (k == |requests| - 1 && (r.HttpFailed? || r.PutRaised?))
    ensures StopsWith(r, |requests|, devices, members, items, puts)
    ensures progress.updates == old(progress.updates) + Reports(Files(devices, members, items), puts, |requests|)
  {
    hide Resolve, StarsReplaced, DeviceFor, FileReports, Reports, PriorSent, Effective, Sends, Total;
    var byDev := IndexDevices(devices);
    ghost var files := Files(devices, members, items);
    NothingSent(files, puts);
    var total := SumDeclared(Files(devices, members, items));
    var bytesSent := 0;
    requests := [];
    for k := 0 to |items|
      invariant |requests| == k
      invariant bytesSent == PriorSent(files, k)
      invariant forall i :: 0 <= i < k ==> Sends(host, cookie, devices, members, items[i], requests[i])
      invariant forall i :: 0 <= i < k ==> Accepted(puts[i])
      invariant progress.updates == old(progress.updates) + Reports(files, puts, k)
    {
      var item := items[k];
      var device := if item.deviceId in byDev then Some(byDev[item.deviceId]) else None;
      assert device == DeviceFor(devices, item.deviceId);
      var outcome, request, size := SendFile(host, cookie, device, item, members, bytesSent, total, puts[k], progress);
      if request.Some? {
        SentFile(host, cookie, devices, members, items, puts, k, request.value.url);
        requests := requests + [request.value];
      }
      if outcome != Uploaded {
        return outcome, requests;
      }
      bytesSent := bytesSent + size;
    }
    r := Uploaded;
  }

  // ----- what the reports mean -----

  lemma SortedCons(low: int, x: int, rest: seq<int>, top: int)
    requires Sorted(rest) && low <= x <= top && forall i :: 0 <= i < |rest| ==> x <= rest[i] <= top
    ensures Sorted([x] + rest) && forall i :: 0 <= i < |[x] + rest| ==> low <= ([x] + rest)[i] <= top
  {
  }

  lemma NothingSorted()
    ensures Sorted([])
  {
  }

  /** Each report of a file is the percentage at some position within its member,
      and positions only advance. */
  lemma {:induction false} FileReportsAdvance(prior: nat, total: nat, left: nat, read: nat, asks: seq<Option<int>>)
    requires total > 0
    ensures var out := FileReports(prior, total, left, read, asks);
      && Sorted(out)
      && forall i :: 0 <= i < |out| ==> Percent(prior + read, total) <= out[i] <= Percent(prior + read + left, total)
    decreases asks
  {
    hide Percent, Served, Sorted;
    if asks == [] {
      NothingSorted();
    } else {
      var n := Served(asks[0], left);
      FileReportsAdvance(prior, total, left - n, read + n, asks[1..]);
      PercentMonotone(prior + read, prior + read + n, total);
      PercentMonotone(prior + read + n, prior + read + left, total);
      var rest := FileReports(prior, total, left - n, read + n, asks[1..]);
      var low, top := Percent(prior + read, total), Percent(prior + read + left, total);
      if n > 0 {
        SortedCons(low, Percent(prior + read + n, total), rest, top);
      } else {
        assert [] + rest == rest;
      }
    }
  }

  lemma SortedJoin(a: seq<int>, b: seq<int>, mid: int, top: int)
    requires Sorted(a) && Sorted(b) && 0 <= mid <= top
    requires forall i :: 0 <= i < |a| ==> 0 <= a[i] <= mid
    requires forall i :: 0 <= i < |b| ==> mid <= b[i] <= top
    ensures Sorted(a + b) && forall i :: 0 <= i < |a + b| ==> 0 <= (a + b)[i] <= top
  {
  }

  /** When no member is longer than announced, the reports of a whole upload
      never decrease and never exceed what the files sent so far amount to. */
  lemma {:induction false} ReportsNeverDecrease(files: seq<FileItem>, puts: seq<Put>, k: nat)
    requires k <= |files| && k <= |puts|
    requires forall i :: 0 <= i < k ==> files[i].member <= Effective(files[i])
    ensures var out := Reports(files, puts, k);
      && Sorted(out)
      && forall i :: 0 <= i < |out| ==> 0 <= out[i] <= Percent(PriorSent(files, k), Total(files))
  {
    hide Percent, Total, FileReports, Sorted, Effective;
    if k == 0 {
      assert Reports(files, puts, k) == [];
      NothingSorted();
    } else {
      var prior, total, f := PriorSent(files, k - 1), Total(files), files[k - 1];
      ReportsNeverDecrease(files, puts, k - 1);
      FileReportsAdvance(prior, total, f.member, 0, puts[k - 1].asks);
      PercentMonotone(prior + f.member, prior + Effective(f), total);
      PercentMonotone(prior, prior + f.member, total);
      SortedJoin(Reports(files, puts, k - 1), FileReports(prior, total, f.member, 0, puts[k - 1].asks),
                 Percent(prior, total), Percent(prior + Effective(f), total));
    }
  }

  // ----- the sequential upload is a run of the lease protocol -----

  function LastOr(s: seq<int>, default: int): int {
    if s == [] then default else s[|s| - 1]
  }

  /** The reads of one file are read steps of the protocol. */
  lemma ReadsAreSteps(files: seq<FileItem>, s: LeaseProtocol.State, before: seq<LeaseProtocol.Action>,
                      asks: seq<Option<int>>)
    returns (acts: seq<LeaseProtocol.Action>, t: LeaseProtocol.State)
    requires LeaseProtocol.Runs(files, LeaseProtocol.INITIAL, before, s)
    requires s.main.Uploading? && s.file < |files| && s.read <= files[s.file].member
    ensures LeaseProtocol.Runs(files, LeaseProtocol.INITIAL, acts, t)
    ensures t == s.(read := t.read, percent := t.percent)
    ensures t.percent == LastOr(FileReports(s.sent, Total(files), files[s.file].member - s.read, s.read, asks),
                                s.percent)
    decreases asks
  {
    hide LeaseProtocol.Runs, Percent, Total, Served;
    if asks == [] {
      return before, s;
    }
    var left := files[s.file].member - s.read;
    var n := Served(asks[0], left);
    var rest := FileReports(s.sent, Total(files), left - n, s.read + n, asks[1..]);
    if n == 0 {
      acts, t := ReadsAreSteps(files, s, before, asks[1..]);
    } else {
      var acts', s' := LeaseProtocol.Do(files, s, before, LeaseProtocol.ReadChunk(n));
      acts, t := ReadsAreSteps(files, s', acts', asks[1..]);
      assert LastOr([s'.percent] + rest, s.percent) == LastOr(rest, s'.percent);
    }
  }

  /** One accepted file takes the protocol to the next one. */
  lemma FileIsSteps(files: seq<FileItem>, put: Put, s: LeaseProtocol.State, before: seq<LeaseProtocol.Action>)
    returns (acts: seq<LeaseProtocol.Action>, t: LeaseProtocol.State)
    requires LeaseProtocol.Runs(files, LeaseProtocol.INITIAL, before, s)
    requires s.main.NextFile? && s.file < |files| && files[s.file].available && Accepted(put)
    ensures LeaseProtocol.Runs(files, LeaseProtocol.INITIAL, acts, t)
    ensures t.main.NextFile? && t.file == s.file + 1 && t.sent == s.sent + Effective(files[s.file])
    ensures t.percent == LastOr(FileReports(s.sent, Total(files), files[s.file].member, 0, put.asks), s.percent)
  {
    hide Percent, Total, FileReports, LeaseProtocol.Runs;
    acts, t := LeaseProtocol.Do(files, s, before, LeaseProtocol.OpenFile);
    acts, t := ReadsAreSteps(files, t, acts, put.asks);
    acts, t := LeaseProtocol.Do(files, t, acts, LeaseProtocol.PutReturns(put.answer.code));
  }

  /** While the PUTs are accepted, the sequential upload and its reports are a run
      of the protocol: after `k` files the main thread is at file `k` and the
      percentage is the last one reported. */
  lemma UploadIsARun(files: seq<FileItem>, puts: seq<Put>, k: nat)
    returns (acts: seq<LeaseProtocol.Action>, t: LeaseProtocol.State)
    requires k <= |files| == |puts|
    requires forall i :: 0 <= i < k ==> files[i].available && Accepted(puts[i])
    ensures LeaseProtocol.Runs(files, LeaseProtocol.INITIAL, acts, t)
    ensures t.main.NextFile? && t.file == k && t.sent == PriorSent(files, k)
    ensures t.percent == LastOr(Reports(files, puts, k), 0)
  {
    hide Percent, Total, FileReports;
    if k == 0 {
      assert LeaseProtocol.Runs(files, LeaseProtocol.INITIAL, [], LeaseProtocol.INITIAL);
      acts, t := LeaseProtocol.Do(files, LeaseProtocol.INITIAL, [], LeaseProtocol.StartThread);
    } else {
      hide LeaseProtocol.Runs, Accepted, Reports;
      acts, t := UploadIsARun(files, puts, k - 1);
      assert Accepted(puts[k - 1]);
      acts, t := FileIsSteps(files, puts[k - 1], t, acts);
    }
  }

  /** So are the requests of `UploadDisks` that were accepted. */
  lemma RequestsAreARun(host: string, cookie: string, devices: seq<DeviceUrl>, members: seq<Member>,
                        items: seq<OvfItem>, requests: seq<Request>, puts: seq<Put>, k: nat)
    returns (acts: seq<LeaseProtocol.Action>, t: LeaseProtocol.State)
    requires k <= |requests| <= |items| == |puts|
    requires forall i :: 0 <= i < k ==>
      Sends(host, cookie, devices, members, items[i], requests[i]) && Accepted(puts[i])
    ensures LeaseProtocol.Runs(Files(devices, members, items), LeaseProtocol.INITIAL, acts, t)
    ensures t.main.NextFile? && t.file == k
    ensures t.percent == LastOr(Reports(Files(devices, members, items), puts, k), 0)
  {
    hide Sends, LeaseProtocol.Runs, Reports, FileOf;
    var files := Files(devices, members, items);
    forall i | 0 <= i < k
      ensures files[i].available
    {
      assert files[i] == FileOf(devices, members, items[i]);
      AvailableIffSendable(host, cookie, devices, members, items[i]);
    }
    acts, t := UploadIsARun(files, puts, k);
  }
}
