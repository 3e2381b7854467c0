/** A search over the index: terms to posting sets, posting sets to the list of files found. */
module Searching {
  import opened CStrings
  import opened Options
  import opened TernaryShape
  import opened TernaryTrees
  import opened TernaryHistory
  import opened Leapfrog

  datatype Peer = Peer(id: int, dataport: int, linespeed: int)

  datatype File = File(bitrate: int, frequency: int, client: Peer)

  /** The files in memory, by address. */
  type Catalog = map<int, File>

  datatype Field = LINESPEED | BITRATE | FREQUENCY

  /** What a query asks of an attribute: a value and how to compare with it. */
  datatype Criterion = Criterion(value: int, option: int)

  const DASH: CChar := 45

  /** Subtraction of the target's 32-bit `int`. */
  function Sub32(a: int, b: int): int {
    (a - b + 0x8000_0000) % 0x1_0000_0000 - 0x8000_0000
  }

  /** The difference of two 32-bit numbers as the target computes it. */
  lemma SubMeans(a: int, b: int)
    ensures -0x8000_0000 <= Sub32(a, b) < 0x8000_0000 && (Sub32(a, b) - (a - b)) % 0x1_0000_0000 == 0
    ensures -0x8000_0000 <= a - b < 0x8000_0000 ==> Sub32(a, b) == a - b
  {
  }

  /** What a query means: equal to, at best or at least the value; no other option lets anything pass. */
  predicate Meets(c: Criterion, v: int) {
    || (c.option == 0 && v == c.value)
    || (c.option == -1 && v <= c.value)
    || (c.option == 1 && v >= c.value)
  }

  predicate FitsInt(v: int) {
    -0x8000_0000 <= v < 0x8000_0000
  }

  /** A term that is wanted and lists any file. */
  predicate Usable(t: Key, index: Index<int>) {
    t != [] && t[0] != 45 && t in index && index[t] != {}
  }

  class Search {
    const bitrate: Criterion
    const frequency: Criterion
    const linespeed: Criterion
    const maxMatches: nat
    const terms: seq<Key>
    var matches: nat
    var masterList: seq<int>  // newest first

    constructor (bitrate: Criterion, frequency: Criterion, linespeed: Criterion, maxMatches: nat, terms: seq<Key>)
      ensures this.bitrate == bitrate && this.frequency == frequency && this.linespeed == linespeed
      ensures this.maxMatches == maxMatches && this.terms == terms
      ensures matches == 0 && masterList == []
    {
      this.bitrate, this.frequency, this.linespeed := bitrate, frequency, linespeed;
      this.maxMatches, this.terms := maxMatches, terms;
      matches, masterList := 0, [];
    }

    predicate Compare(field: Field, comparator: int) {
      var c := match field
        case LINESPEED => linespeed
        case BITRATE => bitrate
        case FREQUENCY => frequency;
      var cmp := Sub32(comparator, c.value);
      match c.option
      case 0 => cmp == 0
      case -1 => cmp <= 0
      case 1 => cmp >= 0
      case _ => false
    }

    /** The attribute and firewall tests. */
    predicate Suits(f: File, client: Peer) {
      && (client.dataport != 0 || f.client.dataport != 0)
      && Compare(BITRATE, f.bitrate)
      && Compare(FREQUENCY, f.frequency)
      && Compare(LINESPEED, f.client.linespeed)
    }

    /** No result list is shorter than one file, even for a maximum of zero. */
    function Limit(): nat {
      if maxMatches == 0 then 1 else maxMatches
    }

    ghost function Kept(files: Catalog, exclude: seq<set<int>>, client: Peer, ownToo: bool): set<int> {
      set f | f in files && Suits(files[f], client) && (ownToo || client.id != files[f].client.id) && !Excluded(exclude, f)
    }

    /** Add one file to the results if it passes the tests. */
    method Report(files: Catalog, f: int, exclude: seq<set<int>>, client: Peer, ownToo: bool) returns (added: bool)
      requires f in files
      modifies this`masterList
      ensures added <==> f in Kept(files, exclude, client, ownToo)
      ensures masterList == if added then [f] + old(masterList) else old(masterList)
    {
      added := false;
      if Suits(files[f], client) && (ownToo || client.id != files[f].client.id) {
        var found := InSome(exclude, f);
        if !found {
          masterList := [f] + masterList;
          added := true;
        }
      }
    }

    /** Add the hits of one posting set. */
    method MergeOne(files: Catalog, list: set<int>, exclude: seq<set<int>>, client: Peer)
      requires list <= files.Keys
      modifies this`masterList
      ensures masterList
           == Reverse(First(list * Kept(files, exclude, client, true), Limit())) + old(masterList)
    {
      ghost var hits := list * Kept(files, exclude, client, true);
      ghost var out := [];
      var closematches := 0;
      var left := list;
      NothingYet(list, hits, Limit());
      hide SoFar, First, Reverse, Kept;
      while left != {}
        invariant left <= list && closematches == |out|
        invariant masterList == out + old(masterList) && SoFar(left, hits, out, Limit())
        decreases |left|
      {
        var curval := Least(left);
        Leave(left, hits, out, Limit());
        left := left - {curval};
        var added := Report(files, curval, exclude, client, true);
        if added {
          closematches := closematches + 1;
          out := [curval] + out;
          if closematches >= maxMatches {
            return;
          }
        }
      }
      NothingMore(hits, out, Limit());
    }

    /** Deal with a file that all the sets hold, and find the next file of the set at hand; no
        next file also stands for having enough. (The source also counts `matches` up here, and
        overwrites it before reading it again.) */
    method TakeMatch(files: Catalog, list: set<int>, exclude: seq<set<int>>, client: Peer, curval: int, before: nat,
                     ghost task: Task, ghost c: Cursor, ghost rest: seq<int>)
      returns (closematches: nat, next: Option<int>)
      requires curval in files && curval == c.curval && before == |c.out| < Limit() == task.limit
      requires c.i < |task.lists| && task.lists[c.i] == list && task.kept == Kept(files, exclude, client, false)
      requires masterList == c.out + rest
      modifies this`masterList
      ensures match Take(task, c)
              case Done(out) => next == None && masterList == out + rest
              case Running(d) =>
                && next == Some(d.curval) && masterList == d.out + rest && closematches == |d.out|
                && d.i == Following(c.i, |task.lists|) && d.matches == 1
    {
      hide LowerBound, Kept, Common;
      closematches := before;
      var added := Report(files, curval, exclude, client, false);
      if added {
        closematches := closematches + 1;
        if closematches >= maxMatches {
          return closematches, None;
        }
      }
      next := LowerBound(list, curval + 1);
    }

    /** The body of the merge loop, up to the move to the next list; with `stop` the loop is left. */
    method Look(files: Catalog, list: set<int>, lists: int, exclude: seq<set<int>>, client: Peer,
                curval: int, matches: int, before: nat, ghost task: Task, ghost c: Cursor, ghost rest: seq<int>)
      returns (stop: bool, curval': int, matches': int, closematches: nat)
      requires list <= files.Keys && curval == c.curval && matches == c.matches && before == |c.out| < Limit() == task.limit
      requires c.i < |task.lists| == lists && task.lists[c.i] == list && task.kept == Kept(files, exclude, client, false)
      requires masterList == c.out + rest
      modifies this`masterList
      ensures match Probe(task, c)
              case Done(out) => stop && masterList == out + rest
              case Running(d) =>
                && !stop && masterList == d.out + rest && d.i == Following(c.i, lists)
                && curval' == d.curval && matches' == d.matches && closematches == |d.out|
    {
      hide LowerBound, Kept, Take;
      stop, curval', matches', closematches := false, curval, matches, before;
      var k := LowerBound(list, curval);
      if k == None {
        stop := true;
      } else if k.value != curval {
        curval' := k.value;
        matches' := 1;
      } else {
        matches' := (matches + 1) % 256;
        if matches' == lists {
          closematches, k := TakeMatch(files, list, exclude, client, curval, before, task, c, rest);
          if k == None {
            stop := true;
          } else {
            curval' := k.value;
            matches' := 1;
          }
        }
      }
    }

    /** Add the hits of two posting sets or more; `probes` counts the uses of `lower_bound` at the
        head of the loop. */
    method MergeMany(files: Catalog, s: seq<set<int>>, exclude: seq<set<int>>, client: Peer) returns (ghost probes: nat)
      requires |s| >= 2 && Catalogued(files, s)
      requires |s| <= 255 || Common(s) == {}
      modifies this`masterList
      ensures masterList
           == Reverse(First(Common(s) * Kept(files, exclude, client, false), Limit())) + old(masterList)
      ensures Frugal(s, probes)
    {
      var matches, closematches, curval, i, stop := 0, 0, 0, 0, false;
      probes := 0;
      ghost var task := Task(s, Kept(files, exclude, client, false), Limit());
      ghost var c := Start;
      ghost var p := Begin(task);
      hide Reached, First, Reverse, Kept, Common, Hits, CounterSuffices, Sound, Frugal, Probe;
      while true
        invariant i < |s| && p.rounds <= |s[0]|
        invariant Reached(task, c, p, probes) && c == Cursor(i, curval, matches, c.out)
        invariant masterList == c.out + old(masterList) && closematches == |c.out| < Limit()
        decreases |s[0]| - p.rounds, |s| - i
      {
        ghost var turn := Probe(task, c);
        p := Turn(task, c, p, probes);
        probes := probes + 1;
        stop, curval, matches, closematches :=
          Look(files, s[i], |s|, exclude, client, curval, matches, closematches, task, c, old(masterList));
        if stop {
          break;
        }
        i := i + 1;
        if i == |s| {
          i := 0;
        }
        c := turn.c;
      }
    }

    /** `jmerge`: one set is listed straight off, more are intersected. */
    method JMerge(files: Catalog, s: seq<set<int>>, exclude: seq<set<int>>, client: Peer)
      requires |s| >= 1 && Catalogued(files, s)
      requires |s| <= 255 || Common(s) == {}
      modifies this`masterList
      ensures masterList
           == Reverse(First(Common(s) * Kept(files, exclude, client, |s| == 1), Limit())) + old(masterList)
    {
      if |s| == 1 {
        assert Common(s) == s[0];
        MergeOne(files, s[0], exclude, client);
      } else {
        ghost var probes := MergeMany(files, s, exclude, client);
      }
    }

    /** Look the terms up, those after a dash apart. */
    method FindTerms(tree: TernaryTree<int>) returns (require: seq<set<int>>, exclude: seq<set<int>>)
      requires tree.Valid()
      requires forall t | t in terms :: IsKey(t)
      ensures require == Postings(Wanted(terms), tree.index) && exclude == Postings(Unwanted(terms), tree.index)
    {
      require, exclude := [], [];
      var n := 0;
      while n < |terms|
        invariant n <= |terms|
        invariant require == Postings(Wanted(terms[..n]), tree.index)
        invariant exclude == Postings(Unwanted(terms[..n]), tree.index)
      {
        var word := terms[n];
        assert word in terms;
        SplitStep(terms, n, tree.index);
        if word[0] != DASH {
          var fs := tree.Find(word);
          if fs.Some? && fs.value != {} {
            require := require + [fs.value];
          }
        } else {
          KeyTail(word);
          var fs := tree.Find(word[1..]);
          if fs.Some? && fs.value != {} {
            exclude := exclude + [fs.value];
          }
        }
        n := n + 1;
      }
      assert terms[..n] == terms;
    }

    method Go(caller: Peer, tree: TernaryTree<int>, files: Catalog)
      requires tree.Valid() && Indexed(files, tree.index)
      requires forall t | t in terms :: IsKey(t)
      requires var lists := Postings(Wanted(terms), tree.index); |lists| <= 255 || Common(lists) == {}
      modifies this`masterList, this`matches
      ensures masterList == Reverse(First(Scan(files, tree.index, caller), Limit())) + old(masterList)
      ensures matches == if Postings(Wanted(terms), tree.index) == [] then old(matches) else |masterList|
      ensures Answers(old(masterList), masterList, files, tree.index, caller)
    {
      ScanAnswers(masterList, files, tree.index, caller);
      hide Answers, Scan, Kept, Common, Wanted, Unwanted, Postings, Catalogued, First, Reverse, Suits, Excluded;
      var require, exclude := FindTerms(tree);
      ScanIsMerge(files, tree.index, caller);
      assert require == [] ==> Reverse(First({}, Limit())) == [] by { NothingFirst(Limit()); }
      if require == [] {
        return;
      }
      PostingsCatalogued(files, tree.index, Wanted(terms));
      JMerge(files, require, exclude, caller);
      matches := |masterList|;
    }

    predicate InRange(files: Catalog) {
      forall f | f in files ::
        && FitsInt(files[f].bitrate - bitrate.value) && FitsInt(files[f].frequency - frequency.value)
        && FitsInt(files[f].client.linespeed - linespeed.value)
    }

    /** What a search should list: files under every usable term, of which there is one at least, and
        under no term after a dash; that either side can reach; that meet all three criteria; and of
        the caller's own only with a single usable term. */
    ghost predicate Hit(f: int, files: Catalog, index: Index<int>, caller: Peer) {
      && f in files
      && (exists t :: t in terms && Usable(t, index))
      && (forall t | t in terms && Usable(t, index) :: f in index[t])
      && (forall t | t in terms && t != [] && t[0] == 45 && t[1..] in index :: f !in index[t[1..]])
      && (caller.dataport != 0 || files[f].client.dataport != 0)
      && Meets(bitrate, files[f].bitrate) && Meets(frequency, files[f].frequency)
      && Meets(linespeed, files[f].client.linespeed)
      && (caller.id != files[f].client.id
          || forall i, j | 0 <= i < j < |terms| :: !Usable(terms[i], index) || !Usable(terms[j], index))
    }

    /** `after` has new files in front of `before`: hits, each once, by falling address, no more than
        the maximum, or one if that is zero; and if any hit is not there, there is no room for it. */
    ghost predicate Answers(before: seq<int>, after: seq<int>, files: Catalog, index: Index<int>, caller: Peer) {
      var n, most := |after| - |before|, if maxMatches == 0 then 1 else maxMatches;
      && 0 <= n <= most && after[n..] == before
      && (forall i, j | 0 <= i < j < n :: after[i] > after[j])
      && (InRange(files) ==> forall i | 0 <= i < n :: Hit(after[i], files, index, caller))
      && (InRange(files) ==>
            forall f | Hit(f, files, index, caller) && f !in after[..n] ::
              n == most && forall i | 0 <= i < n :: after[i] < f)
    }

    /** A comparison says what the query means as long as the difference fits; otherwise it goes
        the wrong way for exactly the two inequalities. */
    lemma CompareMeans(v: int)
      ensures FitsInt(v - bitrate.value) ==> (Compare(BITRATE, v) <==> Meets(bitrate, v))
      ensures FitsInt(v - frequency.value) ==> (Compare(FREQUENCY, v) <==> Meets(frequency, v))
      ensures FitsInt(v - linespeed.value) ==> (Compare(LINESPEED, v) <==> Meets(linespeed, v))
    {
      SubMeans(v, bitrate.value);
      SubMeans(v, frequency.value);
      SubMeans(v, linespeed.value);
    }

    lemma CompareExactly(v: int)
      requires FitsInt(v) && FitsInt(bitrate.value)
      ensures (Compare(BITRATE, v) <==> Meets(bitrate, v))
         <==> FitsInt(v - bitrate.value) || (bitrate.option != 1 && bitrate.option != -1)
    {
      SubMeans(v, bitrate.value);
    }

    lemma FoundIsHit(f: int, files: Catalog, index: Index<int>, caller: Peer)
      requires f in files && InRange(files) && forall k | k in index :: index[k] != {}
      ensures Found(f, files, index, caller) <==> Hit(f, files, index, caller)
    {
      CompareMeans(files[f].bitrate);
      CompareMeans(files[f].frequency);
      CompareMeans(files[f].client.linespeed);
      UsablePostings(terms, index);
      hide Compare, Meets, Postings, Wanted;
    }

    lemma ScanAnswers(before: seq<int>, files: Catalog, index: Index<int>, caller: Peer)
      requires forall k | k in index :: index[k] != {}
      ensures Answers(before, Reverse(First(Scan(files, index, caller), Limit())) + before, files, index, caller)
    {
      var s := Scan(files, index, caller);
      FirstPicks(s, Limit());
      var r := Reverse(First(s, Limit()));
      var after := r + before;
      assert after[|r|..] == before && after[..|r|] == r;
      assert forall i | 0 <= i < |r| :: after[i] == r[i];
      hide Scan, First, Reverse, Hit, InRange;
      if InRange(files) {
        ScanIsHits(files, index, caller);
      }
    }

    lemma ScanIsHits(files: Catalog, index: Index<int>, caller: Peer)
      requires InRange(files) && forall k | k in index :: index[k] != {}
      ensures forall f :: f in Scan(files, index, caller) <==> Hit(f, files, index, caller)
    {
      forall f | f in files
        ensures Found(f, files, index, caller) <==> Hit(f, files, index, caller)
      {
        FoundIsHit(f, files, index, caller);
      }
    }

    /** Naive scan: is `f` a hit? It must be listed under every wanted term that lists any file, of
        which there must be one; it must not be listed under an unwanted one; and it must suit the
        caller, whose own files only count if no more than one wanted term lists any. */
    ghost predicate Found(f: int, files: Catalog, index: Index<int>, caller: Peer)
      requires f in files
    {
      && Postings(Wanted(terms), index) != []
      && (forall t | t in terms && t != [] && t[0] != DASH && t in index :: f in index[t])
      && (forall t | t in terms && t != [] && t[0] == DASH && t[1..] in index :: f !in index[t[1..]])
      && Suits(files[f], caller)
      && (|Postings(Wanted(terms), index)| == 1 || caller.id != files[f].client.id)
    }

    ghost function Scan(files: Catalog, index: Index<int>, caller: Peer): set<int> {
      set f | f in files && Found(f, files, index, caller)
    }

    /** The naive scan in terms of the history of the index: what was put where, and taken away. */
    lemma ScanOfHistory(f: int, files: Catalog, ops: seq<Op<int>>, caller: Peer)
      requires f in files
      ensures Found(f, files, Run(ops), caller)
              <==>
              && (exists t :: t in Wanted(terms) && Lists(ops, t))
              && (forall t | t in terms && t != [] && t[0] != DASH && Lists(ops, t) :: Present(ops, t, f))
              && (forall t | t in terms && t != [] && t[0] == DASH :: !Present(ops, t[1..], f))
              && Suits(files[f], caller)
              && (|Postings(Wanted(terms), Run(ops))| == 1 || caller.id != files[f].client.id)
    {
      hide Suits, Run, Present;
      SomePosting(Wanted(terms), ops);
      forall t: Key
        ensures t in Run(ops) <==> Lists(ops, t)
        ensures t in Run(ops) ==> (f in Run(ops)[t] <==> Present(ops, t, f))
      {
        IndexOfHistory(ops, t);
      }
      assert forall t: Key :: Present(ops, t, f) ==> Lists(ops, t);
    }

    lemma ScanIsMerge(files: Catalog, index: Index<int>, caller: Peer)
      requires forall k | k in index :: index[k] != {}
      ensures var require, exclude := Postings(Wanted(terms), index), Postings(Unwanted(terms), index);
              Scan(files, index, caller)
              == if require == [] then {} else Common(require) * Kept(files, exclude, caller, |require| == 1)
    {
      var require, exclude := Postings(Wanted(terms), index), Postings(Unwanted(terms), index);
      if require != [] {
        forall f | f in files
          ensures f in Common(require) <==> forall t | t in terms && t != [] && t[0] != DASH && t in index :: f in index[t]
          ensures Excluded(exclude, f)
             <==> exists t | t in terms && t != [] && t[0] == DASH && t[1..] in index :: f in index[t[1..]]
        {
          InPostings(Wanted(terms), index, f);
          InPostings(Unwanted(terms), index, f);
          SplitTerms(terms);
        }
      }
    }
  }

  /** A term lists the files that were put under it and not taken away since. */
  ghost predicate Lists(ops: seq<Op<int>>, t: Key) {
    exists g :: Present(ops, t, g)
  }

  lemma IndexOfHistory(ops: seq<Op<int>>, t: Key)
    ensures t in Run(ops) <==> Lists(ops, t)
    ensures t in Run(ops) ==> Run(ops)[t] != {} && forall f :: f in Run(ops)[t] <==> Present(ops, t, f)
  {
    forall f
      ensures f in Lookup(Run(ops), t) <==> Present(ops, t, f)
      ensures t in Run(ops) ==> Run(ops)[t] != {}
    {
      RunIsHistory(ops, t, f);
    }
    RunIsHistory(ops, t, 0);
    if t in Run(ops) {
      var f := SomeElement(Run(ops)[t]);
      assert Present(ops, t, f);
    }
  }

  lemma {:induction false} SomePosting(ts: seq<Key>, ops: seq<Op<int>>)
    ensures Postings(ts, Run(ops)) != [] <==> exists t :: t in ts && Lists(ops, t)
    decreases |ts|
  {
    if ts != [] {
      var t, before := ts[|ts| - 1], ts[..|ts| - 1];
      SomePosting(before, ops);
      IndexOfHistory(ops, t);
      assert ts == before + [t];
    }
  }

  /** The terms to require, and those after a dash. */
  function Wanted(terms: seq<Key>): seq<Key> {
    if terms == [] then []
    else
      var t := terms[|terms| - 1];
      Wanted(terms[..|terms| - 1]) + if t != [] && t[0] != DASH then [t] else []
  }

  function Unwanted(terms: seq<Key>): seq<Key> {
    if terms == [] then []
    else
      var t := terms[|terms| - 1];
      Unwanted(terms[..|terms| - 1]) + if t != [] && t[0] == DASH then [t[1..]] else []
  }

  /** The sets of the terms that list any file. */
  function Postings(terms: seq<Key>, index: Index<int>): seq<set<int>> {
    if terms == [] then []
    else
      var t := terms[|terms| - 1];
      Postings(terms[..|terms| - 1], index) + if t in index && index[t] != {} then [index[t]] else []
  }

  /** `r` lists elements of `s`, each once, from the largest down, not more than `limit` of them;
      what it leaves out is larger than all of these, and left out for want of room. */
  ghost predicate Picks(r: seq<int>, s: set<int>, limit: nat) {
    && |r| <= limit && (forall i, j | 0 <= i < j < |r| :: r[i] > r[j]) && (forall i | 0 <= i < |r| :: r[i] in s)
    && forall f | f in s && f !in r :: |r| == limit && forall i | 0 <= i < |r| :: r[i] < f
  }

  lemma FirstPicks(s: set<int>, limit: nat)
    ensures Picks(Reverse(First(s, limit)), s, limit)
  {
    var out := First(s, limit);
    FirstMeaning(s, limit);
    ReverseMeans(out);
    var r := Reverse(out);
    hide First, Reverse;
    assert forall i | 0 <= i < |r| :: r[i] == out[|r| - 1 - i] && r[i] in out;
    if |s| <= limit && (exists f :: f in s && f !in r) {
      var f :| f in s && f !in r;
      FewerThan(out, s, f);
    }
  }

  lemma {:induction false} FewerThan(out: seq<int>, s: set<int>, f: int)
    requires (forall i, j | 0 <= i < j < |out| :: out[i] < out[j]) && (forall e | e in out :: e in s)
    requires f in s && f !in out
    ensures |out| < |s|
    decreases |out|
  {
    if out != [] {
      var last := |out| - 1;
      assert forall e | e in out[..last] :: e in out && e != out[last];
      FewerThan(out[..last], s - {out[last]}, f);
    }
  }

  ghost predicate NoneUsable(terms: seq<Key>, index: Index<int>) {
    forall i | 0 <= i < |terms| :: !Usable(terms[i], index)
  }

  ghost predicate FewUsable(terms: seq<Key>, index: Index<int>) {
    forall i, j | 0 <= i < j < |terms| :: !Usable(terms[i], index) || !Usable(terms[j], index)
  }

  lemma OneMoreTerm(before: seq<Key>, t: Key, index: Index<int>)
    ensures NoneUsable(before + [t], index) <==> NoneUsable(before, index) && !Usable(t, index)
    ensures FewUsable(before + [t], index)
       <==> if Usable(t, index) then NoneUsable(before, index) else FewUsable(before, index)
  {
    hide Usable;
    var terms := before + [t];
    assert terms[|before|] == t && forall i | 0 <= i < |before| :: terms[i] == before[i];
  }

  /** How many sets a search requires: none, one or more. */
  lemma {:induction false} UsablePostings(terms: seq<Key>, index: Index<int>)
    ensures Postings(Wanted(terms), index) == [] <==> NoneUsable(terms, index)
    ensures |Postings(Wanted(terms), index)| <= 1 <==> FewUsable(terms, index)
    decreases |terms|
  {
    if terms != [] {
      var t, before := terms[|terms| - 1], terms[..|terms| - 1];
      UsablePostings(before, index);
      PostingsStep(Wanted(before), t, index);
      assert Wanted(before) + [] == Wanted(before);
      assert terms == before + [t];
      OneMoreTerm(before, t, index);
      hide NoneUsable, FewUsable;
    }
  }

  lemma PostingsStep(ts: seq<Key>, t: Key, index: Index<int>)
    ensures Postings(ts + [t], index) == Postings(ts, index) + if t in index && index[t] != {} then [index[t]] else []
  {
    assert (ts + [t])[..|ts|] == ts;
  }

  lemma SplitStep(terms: seq<Key>, n: nat, index: Index<int>)
    requires n < |terms| && terms[n] != []
    ensures var t := terms[n];
            && Postings(Wanted(terms[..n + 1]), index)
               == Postings(Wanted(terms[..n]), index)
                  + (if t[0] != DASH && t in index && index[t] != {} then [index[t]] else [])
            && Postings(Unwanted(terms[..n + 1]), index)
               == Postings(Unwanted(terms[..n]), index)
                  + (if t[0] == DASH && t[1..] in index && index[t[1..]] != {} then [index[t[1..]]] else [])
  {
    var t := terms[n];
    assert terms[..n + 1][..n] == terms[..n];
    var w, u := Wanted(terms[..n]), Unwanted(terms[..n]);
    assert w + [] == w && u + [] == u;
    assert Postings(w, index) + [] == Postings(w, index) && Postings(u, index) + [] == Postings(u, index);
    PostingsStep(w, t, index);
    PostingsStep(u, t[1..], index);
  }

  lemma {:induction false} SplitTerms(terms: seq<Key>)
    ensures forall t :: t in Wanted(terms) <==> t in terms && t != [] && t[0] != DASH
    ensures forall t | t in terms && t != [] && t[0] == DASH :: t[1..] in Unwanted(terms)
    ensures forall u | u in Unwanted(terms) :: exists t | t in terms && t != [] && t[0] == DASH :: t[1..] == u
    decreases |terms|
  {
    if terms != [] {
      var t := terms[|terms| - 1];
      var before := terms[..|terms| - 1];
      SplitTerms(before);
      assert terms == before + [t];
    }
  }

  lemma {:induction false} InPostings(ts: seq<Key>, index: Index<int>, f: int)
    requires forall k | k in index :: index[k] != {}
    ensures (forall s | s in Postings(ts, index) :: f in s) <==> forall t | t in ts && t in index :: f in index[t]
    ensures (exists s | s in Postings(ts, index) :: f in s) <==> exists t | t in ts && t in index :: f in index[t]
    decreases |ts|
  {
    if ts != [] {
      var t := ts[|ts| - 1];
      var before := ts[..|ts| - 1];
      InPostings(before, index, f);
      assert ts == before + [t];
    }
  }

  lemma {:induction false} PostingsCatalogued(files: Catalog, index: Index<int>, ts: seq<Key>)
    requires Indexed(files, index)
    ensures Catalogued(files, Postings(ts, index))
    decreases |ts|
  {
    if ts != [] {
      PostingsCatalogued(files, index, ts[..|ts| - 1]);
    }
  }

  /** The index lists only files in memory. */
  ghost predicate Indexed(files: Catalog, index: Index<int>) {
    (forall f | f in files :: f > 0) && forall k | k in index :: index[k] <= files.Keys
  }

  /** The sets hold addresses of files in memory, and none is the null pointer. */
  ghost predicate Catalogued(files: Catalog, s: seq<set<int>>) {
    (forall f | f in files :: f > 0) && forall j | 0 <= j < |s| :: s[j] <= files.Keys
  }

  /** With `left` still to look at, `out` is the right beginning of the result. */
  ghost predicate SoFar(left: set<int>, hits: set<int>, out: seq<int>, limit: nat) {
    |out| < limit && Reverse(out) + First(left * hits, limit - |out|) == First(hits, limit)
  }

  lemma NothingYet(all: set<int>, hits: set<int>, limit: nat)
    requires hits <= all && limit > 0
    ensures SoFar(all, hits, [], limit)
  {
    assert all * hits == hits;
  }

  lemma NothingMore(hits: set<int>, out: seq<int>, limit: nat)
    requires SoFar({}, hits, out, limit)
    ensures out == Reverse(First(hits, limit))
  {
    assert {} * hits == {} && Reverse(out) + [] == Reverse(out);
    ReverseTwice(out);
  }

  /** Going on to the next element of a set of candidates, whether it is a hit or not. */
  lemma Leave(left: set<int>, hits: set<int>, out: seq<int>, limit: nat)
    requires left != {} && SoFar(left, hits, out, limit)
    ensures var x, rest := Least(left), left - {Least(left)};
            if x !in hits then SoFar(rest, hits, out, limit)
            else if |out| + 1 >= limit then [x] + out == Reverse(First(hits, limit))
            else SoFar(rest, hits, [x] + out, limit)
  {
    var x, rest := Least(left), left - {Least(left)};
    if x in hits {
      assert x in left * hits && Least(left * hits) == x;
      assert left * hits - {x} == rest * hits;
      assert ([x] + out)[1..] == out;
      var more := First(rest * hits, limit - |out| - 1);
      assert Reverse(out) + ([x] + more) == Reverse([x] + out) + more;
      if |out| + 1 >= limit { assert Reverse([x] + out) + more == Reverse([x] + out); }
      ReverseTwice([x] + out);
    } else {
      assert left * hits == rest * hits;
    }
  }

  lemma NothingFirst(n: nat)
    ensures Reverse(First({}, n)) == []
  {
  }

  predicate Excluded(exclude: seq<set<int>>, f: int) {
    exists j | 0 <= j < |exclude| :: f in exclude[j]
  }

  method InSome(exclude: seq<set<int>>, f: int) returns (found: bool)
    ensures found <==> Excluded(exclude, f)
  {
    found := false;
    for j := 0 to |exclude|
      invariant !found && forall i | 0 <= i < j :: f !in exclude[i]
    {
      if f in exclude[j] {
        found := true;
        break;
      }
    }
  }
}
