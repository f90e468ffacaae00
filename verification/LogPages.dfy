/** The archive as the REST interface shows it: newest first, by agent, and page by page. */
module LogPages {
  import opened Bytes
  import opened Archive

  function Reversed<T>(s: seq<T>): (r: seq<T>)
    ensures |r| == |s|
  {
    seq(|s|, k requires 0 <= k < |s| => s[|s| - 1 - k])
  }

  function OfAgent(logs: seq<LogEntry>, agentID: string): seq<LogEntry> {
    if logs == [] then []
    else
      var last := |logs| - 1;
      OfAgent(logs[..last], agentID) + if logs[last].agentID == agentID then [logs[last]] else []
  }

  method ReverseInPlace<T>(a: array<T>)
    modifies a
    ensures a[..] == Reversed(old(a[..]))
  {
    var i, j := 0, a.Length - 1;
    while i < j
      invariant 0 <= i <= a.Length && j == a.Length - 1 - i
      invariant i <= j + 1
      invariant forall k :: 0 <= k < i ==> a[k] == old(a[a.Length - 1 - k])
      invariant forall k :: j < k < a.Length ==> a[k] == old(a[a.Length - 1 - k])
      invariant forall k :: i <= k <= j ==> a[k] == old(a[k])
    {
      a[i], a[j] := a[j], a[i];
      i, j := i + 1, j - 1;
    }
  }

  /** A slice of the given entries, as the loader leaves it. */
  method Slice<T>(s: seq<T>) returns (a: array<T>)
    ensures fresh(a) && a[..] == s
  {
    a := new T[|s|](k requires 0 <= k < |s| => s[k]);
  }

  /** Every entry of the agent is kept as often as it is there, and no other entry. */
  lemma {:induction false} OfAgentKeeps(logs: seq<LogEntry>, agentID: string, e: LogEntry)
    ensures multiset(OfAgent(logs, agentID))[e] == if e.agentID == agentID then multiset(logs)[e] else 0
  {
    if logs != [] {
      OfAgentKeeps(logs[..|logs| - 1], agentID, e);
      LastApart(logs);
    }
  }

  method FilterByAgent(logs: seq<LogEntry>, agentID: string) returns (filtered: seq<LogEntry>)
    ensures filtered == OfAgent(logs, agentID)
  {
    filtered := [];
    for i := 0 to |logs|
      invariant filtered == OfAgent(logs[..i], agentID)
    {
      assert logs[..i + 1][..i] == logs[..i];
      if logs[i].agentID == agentID {
        filtered := filtered + [logs[i]];
      }
    }
    assert logs[..|logs|] == logs;
  }

  method GetAllLogs(archive: Option<string>) returns (logs: Option<seq<LogEntry>>)
    ensures archive.Some? && Load(archive.value).Some? ==> logs == Some(Reversed(Load(archive.value).value))
    ensures archive.None? || Load(archive.value).None? ==> logs == None
  {
    var loaded := LoadArchiveLogs(archive);
    if loaded.None? {
      return None;
    }
    var a := Slice(loaded.value);
    ReverseInPlace(a);
    return Some(a[..]);
  }

  method GetLogsByAgentID(archive: Option<string>, agentID: string) returns (logs: Option<seq<LogEntry>>)
    ensures archive.Some? && Load(archive.value).Some? ==>
              logs == Some(OfAgent(Reversed(Load(archive.value).value), agentID))
    ensures archive.None? || Load(archive.value).None? ==> logs == None
  {
    var loaded := LoadArchiveLogs(archive);
    if loaded.None? {
      return None;
    }
    var filtered := FilterByAgent(loaded.value, agentID);
    var a := Slice(filtered);
    ReverseInPlace(a);
    FilterOfReversed(loaded.value, agentID);
    return Some(a[..]);
  }

  /** The slice expression, in bounds for every page from the first on. */
  method TakePage<T>(logs: seq<T>, page: int, pageSize: int) returns (r: seq<T>, total: nat)
    requires page >= 1 && pageSize >= 0
    ensures r == Page(logs, page, pageSize) && total == |logs|
  {
    total := |logs|;
    var start := (page - 1) * pageSize;
    PageStart(page, pageSize);
    if start > total {
      return [], total;
    }
    var end := start + pageSize;
    if end > total {
      end := total;
    }
    return logs[start..end], total;
  }

  method GetLogsPaged(archive: Option<string>, page: int, pageSize: int) returns (r: Option<(seq<LogEntry>, nat)>)
    requires page >= 1 && pageSize >= 0
    ensures archive.Some? && Load(archive.value).Some? ==>
              var logs := Load(archive.value).value; r == Some((Page(Reversed(logs), page, pageSize), |logs|))
    ensures archive.None? || Load(archive.value).None? ==> r == None
  {
    var loaded := LoadArchiveLogs(archive);
    if loaded.None? {
      return None;
    }
    var a := Slice(loaded.value);
    ReverseInPlace(a);
    var logs, total := TakePage(a[..], page, pageSize);
    return Some((logs, total));
  }

  /** Oldest first: this one does not reverse. */
  method GetLogsPagedByAgentID(archive: Option<string>, agentID: string, page: int, pageSize: int)
    returns (r: Option<(seq<LogEntry>, nat)>)
    requires page >= 1 && pageSize >= 0
    ensures archive.Some? && Load(archive.value).Some? ==>
              var mine := OfAgent(Load(archive.value).value, agentID); r == Some((Page(mine, page, pageSize), |mine|))
    ensures archive.None? || Load(archive.value).None? ==> r == None
  {
    var loaded := LoadArchiveLogs(archive);
    if loaded.None? {
      return None;
    }
    var filtered := FilterByAgent(loaded.value, agentID);
    var logs, total := TakePage(filtered, page, pageSize);
    return Some((logs, total));
  }

  function Min(a: int, b: int): int {
    if a < b then a else b
  }

  lemma PageStart(page: int, pageSize: int)
    requires page >= 1 && pageSize >= 0
    ensures (page - 1) * pageSize >= 0 && page * pageSize == (page - 1) * pageSize + pageSize
  {}

  /** Page p holds the entries from (p - 1) * size up to p * size, as far as there are any. */
  function Page<T>(logs: seq<T>, page: int, pageSize: int): (r: seq<T>)
    requires page >= 1 && pageSize >= 0
  {
    PageStart(page, pageSize);
    logs[Min((page - 1) * pageSize, |logs|)..Min(page * pageSize, |logs|)]
  }

  /** The first n pages, one after the other. */
  function Pages<T>(logs: seq<T>, n: nat, pageSize: int): seq<T>
    requires pageSize >= 1
  {
    if n == 0 then [] else Pages(logs, n - 1, pageSize) + Page(logs, n, pageSize)
  }

  function PageCount(total: nat, pageSize: int): (n: nat)
    requires pageSize >= 1
  {
    (total + pageSize - 1) / pageSize
  }

  lemma {:induction false} PagesArePrefix<T>(logs: seq<T>, n: nat, pageSize: int)
    requires pageSize >= 1
    ensures n * pageSize >= 0 && Pages(logs, n, pageSize) == logs[..Min(n * pageSize, |logs|)]
  {
    if n > 0 {
      PagesArePrefix(logs, n - 1, pageSize);
      PageStart(n, pageSize);
      JoinSlices(logs, Min((n - 1) * pageSize, |logs|), Min(n * pageSize, |logs|));
    }
  }

  lemma JoinSlices<T>(s: seq<T>, i: nat, j: nat)
    requires i <= j <= |s|
    ensures s[..i] + s[i..j] == s[..j]
  {}

  lemma PageCountIs(total: nat, pageSize: int, n: nat)
    requires pageSize >= 1
    ensures n * pageSize >= total <==> n >= PageCount(total, pageSize)
  {
    var count := PageCount(total, pageSize);
    assert count * pageSize <= total + pageSize - 1 < count * pageSize + pageSize;
    if n >= count {
      Monotone(count, n, pageSize);
    } else {
      Monotone(n + 1, count, pageSize);
      assert (n + 1) * pageSize == n * pageSize + pageSize;
    }
  }

  lemma Monotone(a: nat, b: nat, c: nat)
    requires a <= b
    ensures a * c <= b * c
  {
    assert b * c == a * c + (b - a) * c;
  }

  /** The pages tile the log: together they are all of it, and just the pages past the last are empty. */
  lemma {:induction false} PagesTile<T>(logs: seq<T>, pageSize: int)
    requires pageSize >= 1
    ensures Pages(logs, PageCount(|logs|, pageSize), pageSize) == logs
    ensures forall p :: p >= 1 ==> (Page(logs, p, pageSize) == [] <==> p > PageCount(|logs|, pageSize))
  {
    var count := PageCount(|logs|, pageSize);
    PagesArePrefix(logs, count, pageSize);
    PageCountIs(|logs|, pageSize, count);
    assert logs[..|logs|] == logs;
    forall p | p >= 1 ensures Page(logs, p, pageSize) == [] <==> p > count {
      PageCountIs(|logs|, pageSize, p - 1);
      PageStart(p, pageSize);
    }
  }

  /** So browsing an archive page by page shows every entry that landed, newest first. */
  lemma {:induction false} PagesShowTheArchive(appends: seq<Append>, pageSize: int)
    requires Run(appends).Some? && pageSize >= 1
    ensures var s := Run(appends).value;
            && Load(s.file).Some?
            && Pages(Reversed(Load(s.file).value), PageCount(|s.landed|, pageSize), pageSize) == Reversed(s.landed)
  {
    EveryEntryIsRead(appends);
    PagesTile(Reversed(Run(appends).value.landed), pageSize);
  }

  lemma ReversedOfStep<T>(s: seq<T>, x: T)
    ensures Reversed(s + [x]) == [x] + Reversed(s)
  {}

  lemma {:induction false} OfAgentFirst(first: LogEntry, logs: seq<LogEntry>, agentID: string)
    ensures OfAgent([first] + logs, agentID) ==
        (if first.agentID == agentID then [first] else []) + OfAgent(logs, agentID)
  {
    var all := [first] + logs;
    if logs == [] {
      assert all[..0] == [];
    } else {
      OfAgentFirst(first, logs[..|logs| - 1], agentID);
      assert all[..|all| - 1] == [first] + logs[..|logs| - 1];
    }
  }

  /** Filtering the reversed log is reversing the filtered log. */
  lemma {:induction false} FilterOfReversed(logs: seq<LogEntry>, agentID: string)
    ensures OfAgent(Reversed(logs), agentID) == Reversed(OfAgent(logs, agentID))
  {
    if logs != [] {
      var last := |logs| - 1;
      assert logs == logs[..last] + [logs[last]];
      FilterOfReversed(logs[..last], agentID);
      ReversedOfStep(logs[..last], logs[last]);
      OfAgentFirst(logs[last], Reversed(logs[..last]), agentID);
      ReversedOfStep(OfAgent(logs[..last], agentID), logs[last]);
    }
  }
}
