/** The aggregation half of ExcelReaderService (the public GetSubawards over file paths), stated
    as functions: the file label, the records of all files in turn, and the merge of same-named
    records, together with an independent description of the merged list and its properties. */
module Aggregation {
  import opened Wrappers
  import opened TextOps
  import opened Extraction

  /** One budget file: its path, and the table the loader reads from it (None for a null table). */
  datatype Budget = Budget(path: string, sheet: Option<Table>)

  /** The file label: the text of the path after its last backslash, or the whole path when it
      has none. */
  function FileLabel(path: string): (name: string)
    ensures |name| <= |path| && path == path[..|path| - |name|] + name
    ensures forall k :: 0 <= k < |name| ==> name[k] != '\\'
    ensures |name| < |path| ==> path[|path| - |name| - 1] == '\\'
  {
    path[LastIndexOf(path, '\\') + 1..]
  }

  /** The records one budget file yields, labelled with its file label. */
  function FileRecords(b: Budget): Result<seq<Subaward>, Error>
  {
    ExtractFile(b.sheet, FileLabel(b.path))
  }

  /** `f` applied to every element, in order. */
  function MapSeq<A, B>(f: A -> B, xs: seq<A>): (ys: seq<B>)
    ensures |ys| == |xs|
  {
    if xs == [] then [] else MapSeq(f, xs[..|xs| - 1]) + [f(xs[|xs| - 1])]
  }

  /** What each file yields, in the order of the files. */
  function FileResults(budgets: seq<Budget>): (rs: seq<Result<seq<Subaward>, Error>>)
    ensures |rs| == |budgets|
  {
    MapSeq(FileRecords, budgets)
  }

  /** The records of all files, file after file, or the exception of the first file that throws. */
  function Collect(rs: seq<Result<seq<Subaward>, Error>>): Result<seq<Subaward>, Error>
  {
    if rs == [] then
      Ok([])
    else
      match Collect(rs[..|rs| - 1])
      case Err(e) => Err(e)
      case Ok(before) =>
        match rs[|rs| - 1]
        case Err(e) => Err(e)
        case Ok(found) => Ok(before + found)
  }

  function ExtractAll(budgets: seq<Budget>): Result<seq<Subaward>, Error>
  {
    Collect(FileResults(budgets))
  }

  /** A record named "Name Missing": it is always added, never merged. */
  predicate IsSentinel(s: Subaward)
  {
    s.name == NameMissing
  }

  /** `FirstOrDefault(s => s.Name == name)`: the position of the first entry with that name. */
  function FirstWithName(list: seq<Subaward>, name: string): (r: Option<nat>)
    ensures r.None? <==> forall i :: 0 <= i < |list| ==> list[i].name != name
    ensures r.Some? ==> r.value < |list| && list[r.value].name == name
    ensures r.Some? ==> forall i :: 0 <= i < r.value ==> list[i].name != name
  {
    if list == [] then
      None
    else if list[0].name == name then
      Some(0)
    else
      match FirstWithName(list[1..], name)
      case None => None
      case Some(p) => Some(p + 1)
  }

  /** An entry with `amount` added to its own: the `+=` on the entry found by name. */
  function Added(e: Subaward, amount: real): (r: Subaward)
    ensures r.name == e.name && r.fileName == e.fileName && r.amount == e.amount + amount
  {
    e.(amount := e.amount + amount)
  }

  /** Merges one record into the running list: a sentinel or a new name is appended; otherwise
      the first entry with that name has the amount added to it in place. */
  function MergeOne(list: seq<Subaward>, s: Subaward): seq<Subaward>
  {
    if IsSentinel(s) then
      list + [s]
    else
      match FirstWithName(list, s.name)
      case Some(p) => list[p := Added(list[p], s.amount)]
      case None => list + [s]
  }

  /** Merging one record keeps every entry in its place with its name and file, changes at most
      one amount (that of the first entry with the record's name, by the record's amount), and
      appends the record when it is a sentinel or its name is new. */
  lemma {:induction false} MergeOneChanges(list: seq<Subaward>, s: Subaward)
    ensures IsSentinel(s) || FirstWithName(list, s.name).None? ==> MergeOne(list, s) == list + [s]
    ensures !IsSentinel(s) && FirstWithName(list, s.name).Some? ==>
              var p := FirstWithName(list, s.name).value;
              |MergeOne(list, s)| == |list|
              && MergeOne(list, s)[p].name == list[p].name && MergeOne(list, s)[p].fileName == list[p].fileName
              && MergeOne(list, s)[p].amount == list[p].amount + s.amount
              && forall i :: 0 <= i < |list| && i != p ==> MergeOne(list, s)[i] == list[i]
  {
  }

  lemma {:induction false} MergeOneAppends(list: seq<Subaward>, s: Subaward)
    requires IsSentinel(s) || FirstWithName(list, s.name).None?
    ensures MergeOne(list, s) == list + [s]
  {
    MergeOneChanges(list, s);
  }

  lemma {:induction false} MergeOneAdds(list: seq<Subaward>, s: Subaward, p: nat)
    requires !IsSentinel(s) && FirstWithName(list, s.name) == Some(p)
    ensures MergeOne(list, s) == list[p := Added(list[p], s.amount)]
  {
    MergeOneChanges(list, s);
  }

  /** Merges records one after the other into `list`. */
  function MergeAll(list: seq<Subaward>, ss: seq<Subaward>): seq<Subaward>
  {
    if ss == [] then list else MergeOne(MergeAll(list, ss[..|ss| - 1]), ss[|ss| - 1])
  }

  /** Merging one more record extends the merge of the records before it. */
  lemma {:induction false} MergeAllSnoc(list: seq<Subaward>, ss: seq<Subaward>, s: Subaward)
    ensures MergeAll(list, ss + [s]) == MergeOne(MergeAll(list, ss), s)
  {
    assert (ss + [s])[..|ss|] == ss;
  }

  /** Merging two runs of records one after the other is merging them together. */
  lemma {:induction false} MergeAllAppend(list: seq<Subaward>, a: seq<Subaward>, b: seq<Subaward>)
    ensures MergeAll(list, a + b) == MergeAll(MergeAll(list, a), b)
    decreases |b|
  {
    if b == [] {
      assert a + b == a;
    } else {
      var n := |b| - 1;
      assert a + b == (a + b[..n]) + [b[n]];
      MergeAllSnoc(list, a + b[..n], b[n]);
      MergeAllAppend(list, a, b[..n]);
    }
  }

  /** What the public GetSubawards returns: the merge of every file's records, or the exception
      of the first file that throws. */
  function Aggregate(budgets: seq<Budget>): Result<seq<Subaward>, Error>
  {
    match ExtractAll(budgets)
    case Err(e) => Err(e)
    case Ok(ss) => Ok(MergeAll([], ss))
  }

  // An independent description of the merged list

  /** The sum of the amounts of all records with the given name. */
  function TotalFor(ss: seq<Subaward>, name: string): real
  {
    if ss == [] then
      0.0
    else
      TotalFor(ss[..|ss| - 1], name) + (if ss[|ss| - 1].name == name then ss[|ss| - 1].amount else 0.0)
  }

  /** Record `i` opens an entry of the merged list: it is a sentinel, or no earlier record has
      its name. */
  predicate Opens(ss: seq<Subaward>, i: nat)
    requires i < |ss|
  {
    IsSentinel(ss[i]) || forall j :: 0 <= j < i ==> ss[j].name != ss[i].name
  }

  /** The positions of the records that open an entry, in increasing order. */
  function Openings(ss: seq<Subaward>): (os: seq<nat>)
    ensures forall q :: 0 <= q < |os| ==> os[q] < |ss| && Opens(ss, os[q])
    ensures forall q, q' :: 0 <= q < q' < |os| ==> os[q] < os[q']
    ensures forall i :: 0 <= i < |ss| && Opens(ss, i) ==> i in os
  {
    if ss == [] then
      []
    else
      var n := |ss| - 1;
      var before := Openings(ss[..n]);
      assert forall i :: 0 <= i < n ==> (Opens(ss, i) <==> Opens(ss[..n], i));
      if Opens(ss, n) then before + [n] else before
  }

  /** The entry record `i` opens: a sentinel as it is, any other record with the total of its
      name. */
  function Summarize(ss: seq<Subaward>, i: nat): Subaward
    requires i < |ss|
  {
    if IsSentinel(ss[i]) then ss[i] else ss[i].(amount := TotalFor(ss, ss[i].name))
  }

  /** The entries the records at positions `os` open, in the order of `os`. */
  function SummaryAt(ss: seq<Subaward>, os: seq<nat>): (r: seq<Subaward>)
    requires forall q :: 0 <= q < |os| ==> os[q] < |ss|
    ensures |r| == |os|
    ensures forall q :: 0 <= q < |os| ==> r[q] == Summarize(ss, os[q])
  {
    if os == [] then [] else SummaryAt(ss, os[..|os| - 1]) + [Summarize(ss, os[|os| - 1])]
  }

  /** The merged list described directly: one entry per opening record, in record order. */
  function Summary(ss: seq<Subaward>): seq<Subaward>
  {
    SummaryAt(ss, Openings(ss))
  }

  /** The sentinel records, in order. */
  function Sentinels(ss: seq<Subaward>): (r: seq<Subaward>)
    ensures |r| <= |ss|
    ensures forall q :: 0 <= q < |r| ==> IsSentinel(r[q])
  {
    if ss == [] then
      []
    else
      Sentinels(ss[..|ss| - 1]) + (if IsSentinel(ss[|ss| - 1]) then [ss[|ss| - 1]] else [])
  }

  // Lemmas

  /** The file label of a path with no backslash is the whole path; otherwise it is what follows
      the last backslash. */
  lemma {:induction false} FileLabelOfPlainName(path: string)
    requires forall k :: 0 <= k < |path| ==> path[k] != '\\'
    ensures FileLabel(path) == path
  {
  }

  lemma {:induction false} FileLabelAfterDirectory(dir: string, name: string)
    requires forall k :: 0 <= k < |name| ==> name[k] != '\\'
    ensures FileLabel(dir + "\\" + name) == name
  {
    var path := dir + "\\" + name;
    assert path[|dir|] == '\\' && path[|dir| + 1..] == name;
  }

  lemma {:induction false} TotalForAbsent(ss: seq<Subaward>, name: string)
    requires forall j :: 0 <= j < |ss| ==> ss[j].name != name
    ensures TotalFor(ss, name) == 0.0
  {
    if ss != [] {
      TotalForAbsent(ss[..|ss| - 1], name);
    }
  }

  /** A record is added to its own name's total and leaves every other total alone. */
  lemma {:induction false} TotalForSnoc(ss: seq<Subaward>, s: Subaward, name: string)
    ensures TotalFor(ss + [s], name) == TotalFor(ss, name) + (if s.name == name then s.amount else 0.0)
  {
    assert (ss + [s])[..|ss|] == ss;
  }

  /** The totals of a concatenation are the sums of the totals. */
  lemma {:induction false} TotalForAppend(a: seq<Subaward>, b: seq<Subaward>, name: string)
    ensures TotalFor(a + b, name) == TotalFor(a, name) + TotalFor(b, name)
  {
    if b != [] {
      var n := |b| - 1;
      TotalForAppend(a, b[..n], name);
      assert a + b == (a + b[..n]) + [b[n]];
      TotalForSnoc(a + b[..n], b[n], name);
    } else {
      assert a + b == a;
    }
  }

  /** Changing the amount of a non-sentinel entry leaves the sentinels as they are. */
  lemma {:induction false} SentinelsUpdate(list: seq<Subaward>, p: nat, x: Subaward)
    requires p < |list| && !IsSentinel(list[p]) && !IsSentinel(x)
    ensures Sentinels(list[p := x]) == Sentinels(list)
  {
    var n := |list| - 1;
    var updated := list[p := x];
    if p < n {
      assert updated[..n] == list[..n][p := x];
      SentinelsUpdate(list[..n], p, x);
    } else {
      assert updated[..n] == list[..n];
    }
  }

  /** Merging one record appends it to the sentinels when it is one and leaves them alone
      otherwise. */
  lemma {:induction false} MergeOneSentinels(list: seq<Subaward>, s: Subaward)
    ensures Sentinels(MergeOne(list, s)) == Sentinels(list) + (if IsSentinel(s) then [s] else [])
  {
    if IsSentinel(s) || FirstWithName(list, s.name).None? {
      assert (list + [s])[..|list|] == list;
    } else {
      var p := FirstWithName(list, s.name).value;
      SentinelsUpdate(list, p, Added(list[p], s.amount));
    }
  }

  /** Merging appends every sentinel, unchanged and in order, and merges no sentinel away. */
  lemma {:induction false} MergeAllSentinels(list: seq<Subaward>, ss: seq<Subaward>)
    ensures Sentinels(MergeAll(list, ss)) == Sentinels(list) + Sentinels(ss)
  {
    if ss != [] {
      var n := |ss| - 1;
      MergeAllSentinels(list, ss[..n]);
      MergeOneSentinels(MergeAll(list, ss[..n]), ss[n]);
    } else {
      assert Sentinels(list) + Sentinels(ss) == Sentinels(list);
    }
  }

  /** Merging never removes or reorders an entry: the list merged into keeps its names and files
      in place, and an entry whose name no merged record carries keeps its amount too. */
  lemma {:induction false} MergeAllKeepsEntries(list: seq<Subaward>, ss: seq<Subaward>)
    ensures |list| <= |MergeAll(list, ss)| <= |list| + |ss|
    ensures forall i :: 0 <= i < |list| ==>
              MergeAll(list, ss)[i].name == list[i].name && MergeAll(list, ss)[i].fileName == list[i].fileName
    ensures forall i :: 0 <= i < |list| && (IsSentinel(list[i]) || forall j :: 0 <= j < |ss| ==> ss[j].name != list[i].name) ==>
              MergeAll(list, ss)[i] == list[i]
  {
    if ss != [] {
      var n := |ss| - 1;
      MergeAllKeepsEntries(list, ss[..n]);
      var before := MergeAll(list, ss[..n]);
      var s := ss[n];
      if !IsSentinel(s) && FirstWithName(before, s.name).Some? {
        var p := FirstWithName(before, s.name).value;
        assert !IsSentinel(before[p]);
      }
    }
  }

  /** Record `i` opens an entry of `ss` exactly when it does in any longer list. */
  lemma {:induction false} OpensPrefix(ss: seq<Subaward>, s: Subaward, i: nat)
    requires i < |ss|
    ensures Opens(ss + [s], i) == Opens(ss, i)
  {
    assert forall j :: 0 <= j <= i ==> (ss + [s])[j] == ss[j];
  }

  /** A name has an entry in the described list exactly when some record carries it. */
  lemma {:induction false} SummaryNames(ss: seq<Subaward>, name: string)
    ensures FirstWithName(Summary(ss), name).None? <==> FirstWithName(ss, name).None?
  {
    var os := Openings(ss);
    if j :| 0 <= j < |ss| && ss[j].name == name {
      var f := FirstWithName(ss, name).value;
      assert Opens(ss, f);
      var q :| 0 <= q < |os| && os[q] == f;
      assert Summary(ss)[q].name == name;
    }
    if q :| 0 <= q < |Summary(ss)| && Summary(ss)[q].name == name {
      assert ss[os[q]].name == name;
    }
  }

  /** The non-sentinel names of the described list are pairwise distinct. */
  lemma {:induction false} SummaryNamesDistinct(ss: seq<Subaward>)
    ensures forall q, q' :: 0 <= q < q' < |Summary(ss)| && !IsSentinel(Summary(ss)[q]) ==>
              Summary(ss)[q].name != Summary(ss)[q'].name
  {
    var os := Openings(ss);
    forall q, q' | 0 <= q < q' < |Summary(ss)| && !IsSentinel(Summary(ss)[q])
      ensures Summary(ss)[q].name != Summary(ss)[q'].name
    {
      assert Opens(ss, os[q']) && os[q] < os[q'];
    }
  }

  /** One more record opens an entry at the end, or none. */
  lemma {:induction false} OpeningsSnoc(ss: seq<Subaward>, s: Subaward)
    ensures Openings(ss + [s]) == if Opens(ss + [s], |ss|) then Openings(ss) + [|ss|] else Openings(ss)
  {
    var all := ss + [s];
    assert all[..|ss|] == ss;
    forall i | 0 <= i < |ss|
      ensures Opens(all, i) == Opens(ss, i)
    {
      OpensPrefix(ss, s, i);
    }
  }

  /** One more record leaves the entry of every other name, and of every sentinel, unchanged. */
  lemma {:induction false} SummarizeSnoc(ss: seq<Subaward>, s: Subaward, i: nat)
    requires i < |ss| && (IsSentinel(ss[i]) || ss[i].name != s.name)
    ensures Summarize(ss + [s], i) == Summarize(ss, i)
  {
    TotalForSnoc(ss, s, ss[i].name);
  }

  /** A sentinel or a record with a new name adds its own entry at the end. */
  lemma {:induction false} SummarySnocAppends(ss: seq<Subaward>, s: Subaward)
    requires IsSentinel(s) || FirstWithName(ss, s.name).None?
    ensures Summary(ss + [s]) == Summary(ss) + [s]
  {
    var all := ss + [s];
    var os := Openings(ss);
    assert Openings(all) == os + [|ss|] by {
      OpeningsSnoc(ss, s);
      assert Opens(all, |ss|);
    }
    forall q | 0 <= q < |os|
      ensures Summary(all)[q] == Summary(ss)[q]
    {
      SummarizeSnoc(ss, s, os[q]);
    }
    assert Summary(all)[|os|] == s by {
      if !IsSentinel(s) {
        TotalForSnoc(ss, s, s.name);
        TotalForAbsent(ss, s.name);
      }
    }
    assert |Summary(all)| == |Summary(ss) + [s]|;
  }

  /** A record with a name already seen leaves the entries of all other names alone. */
  lemma {:induction false} SummaryOthersUnchanged(ss: seq<Subaward>, s: Subaward, p: nat)
    requires !IsSentinel(s) && p < |Summary(ss)| && Summary(ss)[p].name == s.name
    requires Openings(ss + [s]) == Openings(ss)
    ensures forall q :: 0 <= q < |Summary(ss)| && q != p ==> Summary(ss + [s])[q] == Summary(ss)[q]
  {
    var os := Openings(ss);
    SummaryNamesDistinct(ss);
    forall q | 0 <= q < |os| && q != p
      ensures Summary(ss + [s])[q] == Summary(ss)[q]
    {
      SummarizeSnoc(ss, s, os[q]);
    }
  }

  lemma {:induction false} UpdatedAt(a: seq<Subaward>, b: seq<Subaward>, p: nat, x: Subaward)
    requires p < |b| == |a| && a[p] == x
    requires forall q :: 0 <= q < |b| && q != p ==> a[q] == b[q]
    ensures a == b[p := x]
  {
  }

  /** A record with a name already seen adds its amount to that name's entry in place. */
  lemma {:induction false} SummarySnocAdds(ss: seq<Subaward>, s: Subaward, p: nat)
    requires !IsSentinel(s) && p < |Summary(ss)| && Summary(ss)[p].name == s.name
    ensures Summary(ss + [s]) == Summary(ss)[p := Added(Summary(ss)[p], s.amount)]
  {
    var all := ss + [s];
    var os := Openings(ss);
    var sum := Summary(ss);
    OpeningsSnoc(ss, s);
    assert ss[os[p]].name == s.name;
    assert !Opens(all, |ss|);
    SummaryOthersUnchanged(ss, s, p);
    assert Summary(all)[p] == Added(sum[p], s.amount) by {
      SummarizeSnocSame(ss, s, os[p]);
    }
    UpdatedAt(Summary(all), sum, p, Added(sum[p], s.amount));
  }

  /** One more record with the name of an opening record adds its amount to that record's entry. */
  lemma {:induction false} SummarizeSnocSame(ss: seq<Subaward>, s: Subaward, i: nat)
    requires i < |ss| && !IsSentinel(ss[i]) && ss[i].name == s.name
    ensures Summarize(ss + [s], i) == Added(Summarize(ss, i), s.amount)
  {
    TotalForSnoc(ss, s, s.name);
    assert (ss + [s])[i] == ss[i];
  }

  /** One more record: the described list of `ss + [s]` is the merge of `s` into that of `ss`. */
  lemma {:induction false} SummarySnoc(ss: seq<Subaward>, s: Subaward)
    ensures Summary(ss + [s]) == MergeOne(Summary(ss), s)
  {
    if IsSentinel(s) || FirstWithName(ss, s.name).None? {
      MergeSnocAppends(ss, s);
    } else {
      MergeSnocAdds(ss, s);
    }
  }

  lemma {:induction false} MergeSnocAppends(ss: seq<Subaward>, s: Subaward)
    requires IsSentinel(s) || FirstWithName(ss, s.name).None?
    ensures Summary(ss + [s]) == MergeOne(Summary(ss), s)
  {
    var sum := Summary(ss);
    assert Summary(ss + [s]) == sum + [s] by { SummarySnocAppends(ss, s); }
    assert MergeOne(sum, s) == sum + [s] by {
      SummaryNames(ss, s.name);
      MergeOneAppends(sum, s);
    }
  }

  lemma {:induction false} MergeSnocAdds(ss: seq<Subaward>, s: Subaward)
    requires !IsSentinel(s) && FirstWithName(ss, s.name).Some?
    ensures Summary(ss + [s]) == MergeOne(Summary(ss), s)
  {
    var sum := Summary(ss);
    assert FirstWithName(sum, s.name).Some? by { SummaryNames(ss, s.name); }
    var p := FirstWithName(sum, s.name).value;
    SummarySnocAdds(ss, s, p);
    MergeOneAdds(sum, s, p);
  }

  /** The merge performed record by record builds exactly the described list. */
  lemma {:induction false} MergeAllIsSummary(ss: seq<Subaward>)
    ensures MergeAll([], ss) == Summary(ss)
  {
    if ss != [] {
      MergeAllIsSummary(ss[..|ss| - 1]);
      SummaryLast(ss);
    }
  }

  lemma {:induction false} SummaryLast(ss: seq<Subaward>)
    requires ss != []
    ensures Summary(ss) == MergeOne(Summary(ss[..|ss| - 1]), ss[|ss| - 1])
  {
    var n := |ss| - 1;
    assert ss[..n] + [ss[n]] == ss;
    SummarySnoc(ss[..n], ss[n]);
  }

  /** The merged list has one entry per name the records carry, none for any other name, and
      no two non-sentinel entries share a name. */
  lemma {:induction false} MergedNamesDistinct(ss: seq<Subaward>)
    ensures forall q, q' :: 0 <= q < q' < |MergeAll([], ss)| && !IsSentinel(MergeAll([], ss)[q]) ==>
              MergeAll([], ss)[q].name != MergeAll([], ss)[q'].name
  {
    MergeAllIsSummary(ss);
    SummaryNamesDistinct(ss);
  }

  lemma {:induction false} MergedNames(ss: seq<Subaward>, name: string)
    ensures (exists q :: 0 <= q < |MergeAll([], ss)| && MergeAll([], ss)[q].name == name)
            <==> (exists j :: 0 <= j < |ss| && ss[j].name == name)
  {
    MergeAllIsSummary(ss);
    SummaryNames(ss, name);
  }

  /** Each non-sentinel entry of the merged list holds the sum of all amounts of its name. */
  lemma {:induction false} MergedTotals(ss: seq<Subaward>)
    ensures forall q :: 0 <= q < |MergeAll([], ss)| && !IsSentinel(MergeAll([], ss)[q]) ==>
              MergeAll([], ss)[q].amount == TotalFor(ss, MergeAll([], ss)[q].name)
  {
    MergeAllIsSummary(ss);
  }

  /** Entries appear in first-seen order, each with the name and file of the record that
      introduced its name. */
  lemma {:induction false} MergedFirstSeenOrder(ss: seq<Subaward>)
    ensures |MergeAll([], ss)| == |Openings(ss)|
    ensures forall q :: 0 <= q < |MergeAll([], ss)| ==>
              MergeAll([], ss)[q].name == ss[Openings(ss)[q]].name
              && MergeAll([], ss)[q].fileName == ss[Openings(ss)[q]].fileName
  {
    MergeAllIsSummary(ss);
  }

  /** The merged list holds exactly the extracted sentinels, in order. */
  lemma {:induction false} MergedSentinels(ss: seq<Subaward>)
    ensures Sentinels(MergeAll([], ss)) == Sentinels(ss)
    ensures |Sentinels(MergeAll([], ss))| == |Sentinels(ss)|
  {
    MergeAllSentinels([], ss);
    assert Sentinels([]) + Sentinels(ss) == Sentinels(ss);
  }

  lemma {:induction false} MapSeqSnoc<A, B>(f: A -> B, xs: seq<A>, x: A)
    ensures MapSeq(f, xs + [x]) == MapSeq(f, xs) + [f(x)]
  {
    assert (xs + [x])[..|xs|] == xs;
  }

  lemma {:induction false} MapSeqPrefix<A, B>(f: A -> B, xs: seq<A>, k: nat)
    requires k <= |xs|
    ensures MapSeq(f, xs[..k]) == MapSeq(f, xs)[..k]
    decreases |xs|
  {
    if k < |xs| {
      var n := |xs| - 1;
      assert xs[..n][..k] == xs[..k];
      MapSeqPrefix(f, xs[..n], k);
      assert MapSeq(f, xs)[..n] == MapSeq(f, xs[..n]);
    } else {
      assert xs[..k] == xs;
    }
  }

  /** Files are read in turn: the results of the files so far and one more file. */
  lemma {:induction false} FileResultsSnoc(budgets: seq<Budget>, b: Budget)
    ensures FileResults(budgets + [b]) == FileResults(budgets) + [FileRecords(b)]
  {
    MapSeqSnoc(FileRecords, budgets, b);
  }

  /** Reading file `i` after the files before it. */
  lemma {:induction false} ExtractAllNext(budgets: seq<Budget>, i: nat)
    requires i < |budgets|
    ensures ExtractAll(budgets[..i + 1]) ==
              match ExtractAll(budgets[..i])
              case Err(e) => Err(e)
              case Ok(before) =>
                match FileRecords(budgets[i])
                case Err(e) => Err(e)
                case Ok(found) => Ok(before + found)
  {
    assert budgets[..i + 1] == budgets[..i] + [budgets[i]];
    FileResultsSnoc(budgets[..i], budgets[i]);
    CollectSnoc(FileResults(budgets[..i]), FileRecords(budgets[i]));
  }

  /** A successful run yields each file's records, one file after the other. */
  lemma {:induction false} CollectSnoc(rs: seq<Result<seq<Subaward>, Error>>, r: Result<seq<Subaward>, Error>)
    ensures Collect(rs + [r]) ==
              match Collect(rs)
              case Err(e) => Err(e)
              case Ok(before) =>
                match r
                case Err(e) => Err(e)
                case Ok(found) => Ok(before + found)
  {
    assert (rs + [r])[..|rs|] == rs;
  }

  /** The exception of a file ends the whole run: once the files read so far fail, all do. */
  lemma {:induction false} CollectErrorPersists(rs: seq<Result<seq<Subaward>, Error>>, k: nat)
    requires k <= |rs| && Collect(rs[..k]).Err?
    ensures Collect(rs) == Collect(rs[..k])
    decreases |rs|
  {
    if k < |rs| {
      var n := |rs| - 1;
      assert rs[..n][..k] == rs[..k];
      CollectErrorPersists(rs[..n], k);
    } else {
      assert rs[..k] == rs;
    }
  }

  /** Once the first `k` files fail, the whole run fails with the same exception. */
  lemma {:induction false} ExtractAllErrorPersists(budgets: seq<Budget>, k: nat)
    requires k <= |budgets| && ExtractAll(budgets[..k]).Err?
    ensures ExtractAll(budgets) == ExtractAll(budgets[..k])
  {
    MapSeqPrefix(FileRecords, budgets, k);
    CollectErrorPersists(FileResults(budgets), k);
  }

  lemma {:induction false} MapSeqAppend<A, B>(f: A -> B, xs: seq<A>, ys: seq<A>)
    ensures MapSeq(f, xs + ys) == MapSeq(f, xs) + MapSeq(f, ys)
    decreases |ys|
  {
    if ys == [] {
      assert xs + ys == xs;
    } else {
      var n := |ys| - 1;
      MapSeqAppend(f, xs, ys[..n]);
      assert xs + ys == (xs + ys[..n]) + [ys[n]];
      assert ys == ys[..n] + [ys[n]];
      MapSeqSnoc(f, xs + ys[..n], ys[n]);
      MapSeqSnoc(f, ys[..n], ys[n]);
    }
  }

  /** Two outcomes one after the other: the first exception wins, and otherwise the records of
      the first come before those of the second. */
  function Joined(r1: Result<seq<Subaward>, Error>, r2: Result<seq<Subaward>, Error>): Result<seq<Subaward>, Error>
  {
    match r1
    case Err(e) => Err(e)
    case Ok(before) =>
      match r2
      case Err(e) => Err(e)
      case Ok(after) => Ok(before + after)
  }

  lemma {:induction false} JoinedAssociates(r1: Result<seq<Subaward>, Error>, r2: Result<seq<Subaward>, Error>, r3: Result<seq<Subaward>, Error>)
    ensures Joined(Joined(r1, r2), r3) == Joined(r1, Joined(r2, r3))
  {
    if r1.Ok? && r2.Ok? && r3.Ok? {
      assert (r1.value + r2.value) + r3.value == r1.value + (r2.value + r3.value);
    }
  }

  /** Reading two runs of files one after the other joins their outcomes. */
  lemma {:induction false} CollectAppend(rs: seq<Result<seq<Subaward>, Error>>, ts: seq<Result<seq<Subaward>, Error>>)
    ensures Collect(rs + ts) == Joined(Collect(rs), Collect(ts))
    decreases |ts|
  {
    if ts == [] {
      assert rs + ts == rs;
      if Collect(rs).Ok? {
        assert Collect(rs).value + [] == Collect(rs).value;
      }
    } else {
      var n := |ts| - 1;
      CollectAppend(rs, ts[..n]);
      assert rs + ts == (rs + ts[..n]) + [ts[n]];
      assert ts == ts[..n] + [ts[n]];
      CollectSnoc(rs + ts[..n], ts[n]);
      CollectSnoc(ts[..n], ts[n]);
      JoinedAssociates(Collect(rs), Collect(ts[..n]), ts[n]);
    }
  }

  /** Reading the files of `a` and then those of `b`. */
  lemma {:induction false} ExtractAllAppend(a: seq<Budget>, b: seq<Budget>)
    ensures ExtractAll(a + b) == Joined(ExtractAll(a), ExtractAll(b))
  {
    MapSeqAppend(FileRecords, a, b);
    CollectAppend(FileResults(a), FileResults(b));
  }

  /** The order in which the files are read changes no name's total: swapping two adjacent runs
      `a` and `b` of files keeps the run free of exceptions and every name's total the same.
      Swaps of adjacent runs reach every reordering of the files. */
  lemma {:induction false} ExtractAllSwapTotals(p: seq<Budget>, a: seq<Budget>, b: seq<Budget>, s: seq<Budget>)
    requires ExtractAll(p + a + b + s).Ok?
    ensures ExtractAll(p + b + a + s).Ok?
    ensures forall name :: TotalFor(ExtractAll(p + b + a + s).value, name) == TotalFor(ExtractAll(p + a + b + s).value, name)
  {
    ExtractAllSwapped(p, a, b, s);
    var xp, xa, xb, xs := ExtractAll(p).value, ExtractAll(a).value, ExtractAll(b).value, ExtractAll(s).value;
    forall name
      ensures TotalFor(xp + xb + xa + xs, name) == TotalFor(xp + xa + xb + xs, name)
    {
      TotalForAppend(xp + xa + xb, xs, name);
      TotalForAppend(xp + xa, xb, name);
      TotalForAppend(xp, xa, name);
      TotalForAppend(xp + xb + xa, xs, name);
      TotalForAppend(xp + xb, xa, name);
      TotalForAppend(xp, xb, name);
    }
  }

  /** The records of `p + a + b + s` and of `p + b + a + s`, run by run. */
  lemma {:induction false} ExtractAllSwapped(p: seq<Budget>, a: seq<Budget>, b: seq<Budget>, s: seq<Budget>)
    requires ExtractAll(p + a + b + s).Ok?
    ensures ExtractAll(p).Ok? && ExtractAll(a).Ok? && ExtractAll(b).Ok? && ExtractAll(s).Ok?
    ensures ExtractAll(p + a + b + s).value == ExtractAll(p).value + ExtractAll(a).value + ExtractAll(b).value + ExtractAll(s).value
    ensures ExtractAll(p + b + a + s) == Ok(ExtractAll(p).value + ExtractAll(b).value + ExtractAll(a).value + ExtractAll(s).value)
  {
    ExtractAllAppend(p + a + b, s);
    ExtractAllAppend(p + a, b);
    ExtractAllAppend(p, a);
    ExtractAllAppend(p + b + a, s);
    ExtractAllAppend(p + b, a);
    ExtractAllAppend(p, b);
  }

  /** Some record of `ss` has this name. */
  predicate Named(ss: seq<Subaward>, name: string)
  {
    exists q :: 0 <= q < |ss| && ss[q].name == name
  }

  /** Some record of `ss` has this name and this amount. */
  predicate HasEntry(ss: seq<Subaward>, name: string, amount: real)
  {
    exists q :: 0 <= q < |ss| && ss[q].name == name && ss[q].amount == amount
  }

  /** Two record lists with the same names and the same total for every name merge into lists
      whose non-sentinel entries carry the same amounts: each entry of the first has an entry
      of the second with its name and amount. */
  lemma {:induction false} MergedAmountsAgree(xs: seq<Subaward>, ys: seq<Subaward>)
    requires forall name :: TotalFor(xs, name) == TotalFor(ys, name)
    requires forall j :: 0 <= j < |xs| ==> Named(ys, xs[j].name)
    ensures forall q :: 0 <= q < |MergeAll([], xs)| && !IsSentinel(MergeAll([], xs)[q]) ==>
              HasEntry(MergeAll([], ys), MergeAll([], xs)[q].name, MergeAll([], xs)[q].amount)
  {
    var mx, my := MergeAll([], xs), MergeAll([], ys);
    MergedTotals(xs);
    MergedTotals(ys);
    forall q | 0 <= q < |mx| && !IsSentinel(mx[q])
      ensures HasEntry(my, mx[q].name, mx[q].amount)
    {
      var n := mx[q].name;
      MergedNames(xs, n);
      var j :| 0 <= j < |xs| && xs[j].name == n;
      assert Named(ys, xs[j].name);
      MergedNames(ys, n);
      var q' :| 0 <= q' < |my| && my[q'].name == n;
      assert !IsSentinel(my[q']);
      assert my[q'].amount == mx[q].amount;
    }
  }

  /** The merged list does not depend on the order of the files in its amounts: swapping two
      adjacent runs `a` and `b` of files gives, for each non-sentinel entry, an entry with the same
      name and amount. Swaps of adjacent runs reach every reordering of the files. */
  lemma {:induction false} AggregateOrderIndependent(p: seq<Budget>, a: seq<Budget>, b: seq<Budget>, s: seq<Budget>)
    requires Aggregate(p + a + b + s).Ok?
    ensures Aggregate(p + b + a + s).Ok?
    ensures forall q :: 0 <= q < |Aggregate(p + a + b + s).value| && !IsSentinel(Aggregate(p + a + b + s).value[q]) ==>
              HasEntry(Aggregate(p + b + a + s).value, Aggregate(p + a + b + s).value[q].name, Aggregate(p + a + b + s).value[q].amount)
  {
    ExtractAllSwapTotals(p, a, b, s);
    ExtractAllSwapped(p, a, b, s);
    var xp, xa, xb, xs := ExtractAll(p).value, ExtractAll(a).value, ExtractAll(b).value, ExtractAll(s).value;
    SwappedNames(xp, xa, xb, xs);
    MergedAmountsAgree(xp + xa + xb + xs, xp + xb + xa + xs);
  }

  /** Every name in `xp + xa + xb + xs` is also in `xp + xb + xa + xs`. */
  lemma {:induction false} SwappedNames(xp: seq<Subaward>, xa: seq<Subaward>, xb: seq<Subaward>, xs: seq<Subaward>)
    ensures forall j :: 0 <= j < |xp + xa + xb + xs| ==> Named(xp + xb + xa + xs, (xp + xa + xb + xs)[j].name)
  {
    var l, r := xp + xa + xb + xs, xp + xb + xa + xs;
    forall j | 0 <= j < |l|
      ensures Named(r, l[j].name)
    {
      var k :=
        if j < |xp| || |xp + xa + xb| <= j then j
        else if j < |xp + xa| then j + |xb|
        else j - |xa|;
      assert r[k] == l[j];
    }
  }

  /** Every record a budget file yields carries that file's label. */
  lemma {:induction false} FileRecordsLabelled(b: Budget)
    requires FileRecords(b).Ok?
    ensures forall t :: 0 <= t < |FileRecords(b).value| ==> FileRecords(b).value[t].fileName == FileLabel(b.path)
  {
    if b.sheet.Some? {
      ExtractRowsLabelled(b.sheet.value.rows, FileLabel(b.path));
    }
  }
}
