/** Byte accounting of the OVA upload (`_upload_disks`, `_CountingReader`, `set_percent`). */
module OvaSizes {
  import opened Basics

  /** One file item: the size the OVF declares for it, the size of the tar
      member that is sent, and whether the lease offers a URL for it and the
      archive a readable member. */
  datatype FileItem = FileItem(declared: Option<nat>, member: nat, available: bool)

  /** The size announced as Content-Length and added to `bytes_sent`: a missing
      or zero declared size falls back to the member's. */
  function Effective(f: FileItem): nat {
    if f.declared.Or(0) != 0 then f.declared.value else f.member
  }

  /** What is announced is the declared size if there is one, else the member's. */
  lemma EffectiveIs(declared: nat, member: nat, available: bool)
    ensures declared > 0 ==> Effective(FileItem(Some(declared), member, available)) == declared
    ensures Effective(FileItem(Some(0), member, available)) == member
    ensures Effective(FileItem(None, member, available)) == member
  {
  }

  function DeclaredSum(files: seq<FileItem>): nat {
    if files == [] then 0 else files[0].declared.Or(0) + DeclaredSum(files[1..])
  }

  /** The total the percentage is taken of; 1 when nothing is declared. */
  function Total(files: seq<FileItem>): (t: nat)
    ensures t > 0
  {
    if DeclaredSum(files) == 0 then 1 else DeclaredSum(files)
  }

  /** The effective sizes of the first `k` files together. */
  function PriorSent(files: seq<FileItem>, k: nat): nat
    requires k <= |files|
  {
    if k == 0 then 0 else PriorSent(files, k - 1) + Effective(files[k - 1])
  }

  /** What the lease is told after `sent` of `total` bytes. */
  function Percent(sent: nat, total: nat): (p: nat)
    requires total > 0
    ensures p <= 100
  {
    if 100 * sent / total > 100 then 100 else 100 * sent / total
  }

  lemma DivMonotone(a: nat, b: nat, t: nat)
    requires a <= b && t > 0
    ensures a / t <= b / t
  {
    var p, q := a / t, b / t;
    assert p * t <= a && b < (q + 1) * t;
    if q + 1 <= p {
      MulMonotone(q + 1, p, t);
    }
  }

  lemma PercentMonotone(a: nat, b: nat, total: nat)
    requires a <= b && total > 0
    ensures Percent(a, total) <= Percent(b, total)
  {
    DivMonotone(100 * a, 100 * b, total);
  }

  lemma PercentFull(sent: nat, total: nat)
    requires total > 0
    ensures Percent(sent, total) == 100 <==> sent >= total
  {
    if sent >= total {
      DivMonotone(100 * total, 100 * sent, total);
    } else {
      assert 100 * sent < 100 * total;
      assert 100 * sent / total < 100;
    }
  }

  lemma {:induction false} PriorMonotone(files: seq<FileItem>, i: nat, j: nat)
    requires i <= j <= |files|
    ensures PriorSent(files, i) <= PriorSent(files, j)
    decreases j - i
  {
    if i == j {
    } else {
      PriorMonotone(files, i, j - 1);
    }
  }

  lemma {:induction false} DeclaredSumSplit(files: seq<FileItem>, more: seq<FileItem>)
    ensures DeclaredSum(files + more) == DeclaredSum(files) + DeclaredSum(more)
  {
    if files == [] {
      assert files + more == more;
    } else {
      assert (files + more)[1..] == files[1..] + more;
      DeclaredSumSplit(files[1..], more);
    }
  }

  ghost predicate AllDeclared(files: seq<FileItem>) {
    forall k :: 0 <= k < |files| ==> files[k].declared.Or(0) > 0
  }

  /** With every size declared, what was sent before file `k` is what is declared for the first `k`. */
  lemma {:induction false} PriorIsDeclared(files: seq<FileItem>, k: nat)
    requires k <= |files| && AllDeclared(files)
    ensures PriorSent(files, k) == DeclaredSum(files[..k])
  {
    if k == 0 {
    } else {
      PriorIsDeclared(files, k - 1);
      assert files[..k] == files[..k - 1] + [files[k - 1]];
      DeclaredSumSplit(files[..k - 1], [files[k - 1]]);
    }
  }

  lemma NextSent(files: seq<FileItem>, k: nat)
    requires k < |files| && AllDeclared(files)
    ensures PriorSent(files, 0) == 0
    ensures PriorSent(files, k + 1) == PriorSent(files, k) + Effective(files[k])
    ensures Effective(files[k]) > 0
  {
  }

  /** With every size declared, a file read up to `read` of its declared bytes
      leaves the total unreached unless it is the last one, read to its end. */
  lemma SentReachesTotal(files: seq<FileItem>, k: nat, read: nat)
    requires k < |files| && AllDeclared(files)
    requires read <= Effective(files[k])
    ensures DeclaredSum(files) == Total(files)
    ensures PriorSent(files, k) + read <= Total(files)
    ensures PriorSent(files, k) + read == Total(files) <==> k == |files| - 1 && read == Effective(files[k])
  {
    hide PriorSent, Effective, DeclaredSum;
    PriorIsDeclared(files, |files|);
    assert files[..|files|] == files;
    NextSent(files, k);
    NextSent(files, 0);
    PriorMonotone(files, 1, |files|);
    PriorMonotone(files, k + 1, |files|);
    if k < |files| - 1 {
      NextSent(files, k + 1);
      PriorMonotone(files, k + 2, |files|);
    }
  }

  /** With every size declared and any number of bytes read of file `k`, the
      percentage is the quotient clamped at 100, and it is 100 exactly when the
      bytes counted reach the total; within the declared size that is at the
      declared end of the last file only. */
  lemma ReportedPercent(files: seq<FileItem>, k: nat, read: nat)
    requires k < |files| && AllDeclared(files)
    ensures Total(files) == DeclaredSum(files)
    ensures var sent := PriorSent(files, k) + read;
      && Percent(sent, Total(files)) == (if sent >= Total(files) then 100 else 100 * sent / Total(files))
      && (Percent(sent, Total(files)) == 100 <==> sent >= Total(files))
      && (read <= Effective(files[k]) ==>
            (Percent(sent, Total(files)) == 100 <==> k == |files| - 1 && read == Effective(files[k])))
  {
    var sent := PriorSent(files, k) + read;
    SentReachesTotal(files, k, 0);
    PercentFull(sent, Total(files));
    if sent < Total(files) {
    }
    if read <= Effective(files[k]) {
      SentReachesTotal(files, k, read);
    }
  }

  /** What is reported after `read` bytes of file `k`. */
  function ReportAt(files: seq<FileItem>, k: nat, read: nat): nat
    requires k < |files|
  {
    Percent(PriorSent(files, k) + read, Total(files))
  }

  /** No file before the last reaches the total when it is read to its end. */
  ghost predicate NoneFullEarly(files: seq<FileItem>) {
    forall k :: 0 <= k < |files| - 1 ==> PriorSent(files, k) + files[k].member < Total(files)
  }

  /** 100 percent is reported in the last file only, however the files before it
      are read, exactly when none of them reaches the total. */
  lemma FullOnlyInLastFile(files: seq<FileItem>)
    ensures (forall k: nat, read: nat :: k < |files| - 1 && read <= files[k].member ==> ReportAt(files, k, read) < 100)
      <==> NoneFullEarly(files)
  {
    forall k: nat, read: nat | k < |files|
      ensures ReportAt(files, k, read) < 100 <==> PriorSent(files, k) + read < Total(files)
    {
      PercentFull(PriorSent(files, k) + read, Total(files));
    }
    if !NoneFullEarly(files) {
      var k: nat :| k < |files| - 1 && PriorSent(files, k) + files[k].member >= Total(files);
      assert ReportAt(files, k, files[k].member) == 100;
    }
  }

  /** All sizes declared, and yet 100 percent before the second file: the first
      member has two bytes and is declared as one. */
  lemma FullBeforeSecondFile() returns (files: seq<FileItem>)
    ensures AllDeclared(files) && |files| == 2 && ReportAt(files, 0, files[0].member) == 100
  {
    var first, second := FileItem(Some(1), 2, true), FileItem(Some(1), 1, true);
    files := [first, second];
    assert files[1..] == [second] && [second][1..] == [];
    assert DeclaredSum([second]) == 1;
  }
}
