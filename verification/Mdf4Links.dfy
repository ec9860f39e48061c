/**
 On which files the walks of the reader never end: exactly on those where a chain of blocks that the walk
 reads completely returns to one of its own blocks.  On all others one bound is enough for every walk.
 */
module Mdf4Links {
  import opened Bits
  import opened CanTypes
  import opened Mdf4Format
  import opened Mdf4Walks

  // ----- The bound does not matter

  lemma {:induction false} MoreFuelChannels(file: Contents, cn: Word, names: seq<Bytes>, headers: seq<Bytes>, fuel: nat,
                                            more: nat)
    requires WalkChannels(file, cn, names, headers, fuel) != Loops && fuel <= more
    ensures WalkChannels(file, cn, names, headers, more) == WalkChannels(file, cn, names, headers, fuel)
    decreases fuel
  {
    hide ReadLink, ReadInt, ReadText, Plus, AddHeader;
    if cn != 0 {
      var next, tx, sync := ReadLink(file, Plus(cn, 24)), ReadLink(file, Plus(cn, 40)), ReadInt(file, Plus(cn, 89), 1);
      if next.Some? && tx.Some? && sync.Some? {
        if tx.value == 0 {
          MoreFuelChannels(file, next.value, names, headers, fuel - 1, more - 1);
        } else {
          var name := ReadText(file, tx.value);
          MoreFuelChannels(file, next.value, if sync.value != 1 then names + [name] else names,
                           AddHeader(headers, name), fuel - 1, more - 1);
        }
      }
    }
  }

  lemma {:induction false} MoreFuelGroups(file: Contents, cg: Word, groups: seq<DbcGroupInfo>, headers: seq<Bytes>,
                                          fuel: nat, more: nat)
    requires WalkGroups(file, cg, groups, headers, fuel) != Loops && fuel <= more
    ensures WalkGroups(file, cg, groups, headers, more) == WalkGroups(file, cg, groups, headers, fuel)
    decreases fuel
  {
    hide ReadLink, ReadInt, Plus, GroupMsgId, WalkChannels;
    if cg != 0 {
      var next, cnFirst := ReadLink(file, Plus(cg, 24)), ReadLink(file, Plus(cg, 32));
      var recordId, dataBytes := ReadLink(file, Plus(cg, 72)), ReadInt(file, Plus(cg, 96), 4);
      if next.Some? && cnFirst.Some? && recordId.Some? && dataBytes.Some?
          && GroupMsgId(file, cg, recordId.value).Done? {
        var walked := WalkChannels(file, cnFirst.value, [], headers, fuel);
        MoreFuelChannels(file, cnFirst.value, [], headers, fuel, more);
        if walked.Done? {
          var group := DbcGroupInfo(recordId.value % 256, dataBytes.value, GroupMsgId(file, cg, recordId.value).value,
                                    walked.value.0);
          MoreFuelGroups(file, next.value, groups + [group], walked.value.1, fuel - 1, more - 1);
        }
      }
    }
  }

  lemma {:induction false} MoreFuelComposition(file: Contents, sub: Word, headers: seq<Bytes>, fuel: nat, more: nat)
    requires WalkComposition(file, sub, headers, fuel) != Loops && fuel <= more
    ensures WalkComposition(file, sub, headers, more) == WalkComposition(file, sub, headers, fuel)
    decreases fuel
  {
    hide ReadLink, ReadText, Plus;
    if sub != 0 {
      var next, comp, tx := ReadLink(file, Plus(sub, 24)), ReadLink(file, Plus(sub, 32)), ReadLink(file, Plus(sub, 40));
      if next.Some? && comp.Some? && tx.Some? {
        MoreFuelComposition(file, next.value, if comp.value == 0
                            && tx.value != 0 then headers + [ReadText(file, tx.value)] else headers,
                            fuel - 1, more - 1);
      }
    }
  }

  lemma {:induction false} MoreFuelRaw(file: Contents, cn: Word, headers: seq<Bytes>, fuel: nat, more: nat)
    requires WalkRaw(file, cn, headers, fuel) != Loops && fuel <= more
    ensures WalkRaw(file, cn, headers, more) == WalkRaw(file, cn, headers, fuel)
    decreases fuel
  {
    hide ReadLink, ReadText, Plus, WalkComposition;
    if cn != 0 {
      var next, comp, tx := ReadLink(file, Plus(cn, 24)), ReadLink(file, Plus(cn, 32)), ReadLink(file, Plus(cn, 40));
      if next.Some? && comp.Some? && tx.Some? {
        if comp.value != 0 {
          var walked := WalkComposition(file, comp.value, headers, fuel);
          MoreFuelComposition(file, comp.value, headers, fuel, more);
          if walked.Done? { MoreFuelRaw(file, next.value, walked.value, fuel - 1, more - 1); }
        } else {
          MoreFuelRaw(file, next.value, if tx.value != 0 then headers + [ReadText(file, tx.value)] else headers,
                      fuel - 1, more - 1);
        }
      }
    }
  }

  /** Once the bound is large enough, a larger one changes nothing. */
  lemma MoreFuelSameFile(file: Contents, fuel: nat, more: nat)
    requires ParseFile(file, fuel) != Loops && fuel <= more
    ensures ParseFile(file, more) == ParseFile(file, fuel)
  {
    hide ReadLink, ReadInt, Plus, Ascii, WalkRaw, WalkGroups, Scan;
    if |file| >= 8 && file[..8] == Ascii("MDF     ") {
      var dg := ReadLink(file, 64 + 24);
      if dg.Some? {
        var cgFirst := ReadLink(file, Plus(dg.value, 32));
        if cgFirst.Some? {
          var cnFirst := ReadLink(file, Plus(cgFirst.value, 32));
          if WalkGroups(file, cgFirst.value, [], [],
                        fuel) != Loops { MoreFuelGroups(file, cgFirst.value, [], [], fuel, more); }
          if cnFirst.Some? && WalkRaw(file, cnFirst.value, [],
                                      fuel) != Loops { MoreFuelRaw(file, cnFirst.value, [], fuel, more); }
        }
      }
    }
  }

  // ----- Chains

  /** From a block to the next one; None at the end of the chain and at a block that the walk cannot pass. */
  type Step = Word -> Option<Word>

  /** The block after n steps. */
  ghost function After(step: Step, first: Word, n: nat): Option<Word>
    decreases n
  {
    if n == 0 then Some(first) else if step(first).None? then None else After(step, step(first).value, n - 1)
  }

  /** The chain returns to one of its own blocks. */
  ghost predicate Returns(step: Step, first: Word) {
    exists m: nat, k: nat :: m < k && After(step, first, m).Some? && After(step, first, m) == After(step, first, k)
  }

  /** The chain reaches the null link. */
  ghost predicate Ends(step: Step, first: Word) {
    exists n: nat :: After(step, first, n) == Some(0)
  }

  lemma {:induction false} AfterSum(step: Step, first: Word, m: nat, n: nat)
    ensures After(step, first, m + n)
            == (var b := After(step, first, m); if b.None? then None else After(step, b.value, n))
    decreases m
  {
    if m > 0 && step(first).Some? { AfterSum(step, step(first).value, m - 1, n); }
  }

  lemma {:induction false} StaysInside(step: Step, first: Word, m: nat, k: nat, n: nat)
    requires m < k && After(step, first, m).Some? && After(step, first, m) == After(step, first, k)
    ensures After(step, first, n).Some?
    decreases n
  {
    if n <= k {
      AfterSum(step, first, n, k - n);
    } else {
      AfterSum(step, first, k, n - k);
      AfterSum(step, first, m, n - k);
      StaysInside(step, first, m, k, m + (n - k));
    }
  }

  lemma {:induction false} WordsAreFew(s: set<Word>, n: nat)
    requires forall w | w in s :: w < n
    ensures |s| <= n
    decreases n
  {
    if n == 0 {
      assert s == {};
    } else {
      WordsAreFew(s - {n - 1}, n - 1);
      assert |s| <= |s - {n - 1}| + 1;
    }
  }

  ghost predicate IsPassed(step: Step, first: Word, n: nat, w: Word) {
    exists i | 0 <= i <= n :: After(step, first, i) == Some(w)
  }

  /** A chain that does not return has passed as many blocks as it has made steps. */
  lemma {:induction false} Passed(step: Step, first: Word, n: nat) returns (blocks: set<Word>)
    requires !Returns(step, first) && After(step, first, n).Some?
    ensures |blocks| == n + 1 && forall w | w in blocks :: IsPassed(step, first, n, w)
    decreases n
  {
    if n == 0 {
      blocks := {first};
      assert After(step, first, 0) == Some(first);
    } else {
      AfterSum(step, first, n - 1, 1);
      var before := Passed(step, first, n - 1);
      var last := After(step, first, n).value;
      blocks := before + {last};
    }
  }

  lemma EndsInTime(step: Step, first: Word, n: nat)
    requires !Returns(step, first) && n >= WORDS
    ensures After(step, first, n) == None
  {
    if After(step, first, n).Some? {
      var blocks := Passed(step, first, n);
      WordsAreFew(blocks, WORDS);
    }
  }

  // ----- The fate of a walk

  datatype Fate = AtEnd | Stuck | Going

  /** Where a walk along a chain is after at most `fuel` blocks. */
  ghost function FateOf(step: Step, at: Word, fuel: nat): Fate
    decreases fuel
  {
    if at == 0 then AtEnd
    else if fuel == 0 then Going
    else if step(at).None? then Stuck
    else FateOf(step, step(at).value, fuel - 1)
  }

  lemma {:induction false} FateIsChain(step: Step, at: Word, fuel: nat)
    requires step(0) == None
    ensures FateOf(step, at, fuel).Going? ==> After(step, at, fuel).Some?
    ensures After(step, at, fuel + 1).Some? ==> FateOf(step, at, fuel).Going?
    ensures FateOf(step, at, fuel).AtEnd? ==> Ends(step, at)
    ensures FateOf(step, at, fuel).Stuck? ==> !Ends(step, at)
    decreases fuel
  {
    if at == 0 {
      assert After(step, at, 0) == Some(0);
    } else if fuel > 0 {
      if step(at).Some? {
        FateIsChain(step, step(at).value, fuel - 1);
        EndsLater(step, at);
      }
    }
  }

  lemma EndsLater(step: Step, at: Word)
    requires at != 0 && step(at).Some?
    ensures Ends(step, at) <==> Ends(step, step(at).value)
  {
    if Ends(step, at) {
      var n: nat :| After(step, at, n) == Some(0);
      assert After(step, step(at).value, n - 1) == Some(0);
    }
    if Ends(step, step(at).value) {
      var n: nat :| After(step, step(at).value, n) == Some(0);
      assert After(step, at, n + 1) == Some(0);
    }
  }

  /** A walk goes on for ever exactly on a chain that returns. */
  lemma GoesOnExactly(step: Step, at: Word, fuel: nat)
    requires step(0) == None
    ensures Returns(step, at) ==> FateOf(step, at, fuel).Going?
    ensures !Returns(step, at) && fuel >= WORDS ==> !FateOf(step, at, fuel).Going?
  {
    FateIsChain(step, at, fuel);
    if Returns(step, at) {
      var m: nat, k: nat :| m < k && After(step, at, m).Some? && After(step, at, m) == After(step, at, k);
      StaysInside(step, at, m, k, fuel + 1);
    } else if fuel >= WORDS {
      EndsInTime(step, at, fuel);
    }
  }

  // ----- Walks that walk an inner chain at every block

  /** The next block and the first block of the inner chain; None at the end and at a block that cannot be read. */
  type Head = Word -> Option<(Word, Word)>

  /** The outer walk passes a block if its inner walk ends. */
  ghost function Outer(head: Head, inner: Step): Step {
    (b: Word) => if head(b).Some? && Ends(inner, head(b).value.1) then Some(head(b).value.0) else None
  }

  ghost predicate OpensReturning(head: Head, inner: Step, at: Option<Word>) {
    at.Some? && head(at.value).Some? && Returns(inner, head(at.value).value.1)
  }

  /** The outer chain returns to one of its blocks, or it comes to a block whose inner chain does. */
  ghost predicate NeverEnds(head: Head, inner: Step, first: Word) {
    || Returns(Outer(head, inner), first)
    || exists n: nat :: OpensReturning(head, inner, After(Outer(head, inner), first, n))
  }

  ghost function NestedFate(head: Head, inner: Step, at: Word, fuel: nat): Fate
    decreases fuel
  {
    if at == 0 then AtEnd
    else if fuel == 0 then Going
    else if head(at).None? then Stuck
    else
      var fate := FateOf(inner, head(at).value.1, fuel);
      if fate.AtEnd? then NestedFate(head, inner, head(at).value.0, fuel - 1) else fate
  }

  lemma {:induction false} OuterGoesOn(head: Head, inner: Step, at: Word, fuel: nat)
    requires head(0) == None && inner(0) == None && After(Outer(head, inner), at, fuel + 1).Some?
    ensures NestedFate(head, inner, at, fuel).Going?
    decreases fuel
  {
    if fuel > 0 {
      FateIsChain(inner, head(at).value.1, fuel);
      OuterGoesOn(head, inner, head(at).value.0, fuel - 1);
    }
  }

  lemma {:induction false} InnerGoesOn(head: Head, inner: Step, at: Word, n: nat, fuel: nat)
    requires head(0) == None && inner(0) == None && OpensReturning(head, inner, After(Outer(head, inner), at, n))
    ensures NestedFate(head, inner, at, fuel).Going?
    decreases fuel
  {
    if fuel > 0 {
      FateIsChain(inner, head(at).value.1, fuel);
      if n == 0 {
        GoesOnExactly(inner, head(at).value.1, fuel);
      } else {
        InnerGoesOn(head, inner, head(at).value.0, n - 1, fuel - 1);
      }
    }
  }

  lemma NeverEndsEarlier(head: Head, inner: Step, at: Word)
    requires Outer(head, inner)(at).Some? && NeverEnds(head, inner, Outer(head, inner)(at).value)
    ensures NeverEnds(head, inner, at)
  {
    hide OpensReturning;
    var step, next := Outer(head, inner), Outer(head, inner)(at).value;
    if Returns(step, next) {
      var m: nat, k: nat :| m < k && After(step, next, m).Some? && After(step, next, m) == After(step, next, k);
      assert After(step, at, m + 1) == After(step, next, m) && After(step, at, k + 1) == After(step, next, k);
    } else {
      var n: nat :| OpensReturning(head, inner, After(step, next, n));
      assert After(step, at, n + 1) == After(step, next, n);
    }
  }

  lemma {:induction false} NestedEnds(head: Head, inner: Step, at: Word, left: nat, fuel: nat)
    requires head(0) == None && inner(0) == None && !NeverEnds(head, inner, at)
    requires After(Outer(head, inner), at, left) == None && fuel >= left + WORDS
    ensures !NestedFate(head, inner, at, fuel).Going?
    decreases left
  {
    if at != 0 && head(at).Some? {
      assert After(Outer(head, inner), at, 0) == Some(at);
      assert !OpensReturning(head, inner, Some(at));
      GoesOnExactly(inner, head(at).value.1, fuel);
      FateIsChain(inner, head(at).value.1, fuel);
      if Ends(inner, head(at).value.1) {
        if NeverEnds(head, inner, head(at).value.0) { NeverEndsEarlier(head, inner, at); }
        NestedEnds(head, inner, head(at).value.0, left - 1, fuel - 1);
      }
    }
  }

  /** A bound that is enough for every walk that ends. */
  const LIMIT: nat := 2 * WORDS

  lemma NestedGoesOnExactly(head: Head, inner: Step, first: Word, fuel: nat)
    requires head(0) == None && inner(0) == None
    ensures NeverEnds(head, inner, first) ==> NestedFate(head, inner, first, fuel).Going?
    ensures !NeverEnds(head, inner, first) && fuel >= LIMIT ==> !NestedFate(head, inner, first, fuel).Going?
  {
    var step := Outer(head, inner);
    if Returns(step, first) {
      var m: nat, k: nat :| m < k && After(step, first, m).Some? && After(step, first, m) == After(step, first, k);
      StaysInside(step, first, m, k, fuel + 1);
      OuterGoesOn(head, inner, first, fuel);
    } else if NeverEnds(head, inner, first) {
      var n: nat :| OpensReturning(head, inner, After(step, first, n));
      InnerGoesOn(head, inner, first, n, fuel);
    } else if fuel >= LIMIT {
      EndsInTime(step, first, WORDS);
      NestedEnds(head, inner, first, WORDS, fuel);
    }
  }

  // ----- The walks of the reader

  /** A CN block of a DBC group is read up to its sync type. */
  ghost function ChannelStep(file: Contents): Step {
    (b: Word) =>
      if b != 0 && ReadLink(file, Plus(b, 40)).Some?
          && ReadInt(file, Plus(b, 89), 1).Some? then ReadLink(file, Plus(b, 24)) else None
  }

  ghost function CompositionStep(file: Contents): Step {
    (b: Word) =>
      if b != 0 && ReadLink(file, Plus(b, 32)).Some?
          && ReadLink(file, Plus(b, 40)).Some? then ReadLink(file, Plus(b, 24)) else None
  }

  /** A CN block of a RAW session opens its composition. */
  ghost function RawHead(file: Contents): Head {
    (b: Word) =>
      var next, comp, tx := ReadLink(file, Plus(b, 24)), ReadLink(file, Plus(b, 32)), ReadLink(file, Plus(b, 40));
      if b != 0 && next.Some? && comp.Some? && tx.Some? then Some((next.value, comp.value)) else None
  }

  /** A CG block with an identifier that can be read opens its channels. */
  ghost function GroupHead(file: Contents): Head {
    (b: Word) =>
      var next, cnFirst := ReadLink(file, Plus(b, 24)), ReadLink(file, Plus(b, 32));
      var recordId, dataBytes := ReadLink(file, Plus(b, 72)), ReadInt(file, Plus(b, 96), 4);
      if && b != 0 && next.Some? && cnFirst.Some? && recordId.Some? && dataBytes.Some?
         && GroupMsgId(file, b, recordId.value).Done?
      then Some((next.value, cnFirst.value)) else None
  }

  lemma {:induction false} ChannelsFate(file: Contents, cn: Word, names: seq<Bytes>, headers: seq<Bytes>, fuel: nat)
    ensures var walked, fate := WalkChannels(file, cn, names, headers, fuel), FateOf(ChannelStep(file), cn, fuel);
            (walked.Loops? <==> fate.Going?) && (walked.Done? <==> fate.AtEnd?)
    decreases fuel
  {
    hide ReadLink, ReadInt, ReadText, Plus, AddHeader;
    if cn != 0 && fuel > 0 && ChannelStep(file)(cn).Some? {
      var next, tx, sync := ReadLink(file, Plus(cn, 24)), ReadLink(file, Plus(cn, 40)), ReadInt(file, Plus(cn, 89), 1);
      if tx.value == 0 {
        ChannelsFate(file, next.value, names, headers, fuel - 1);
      } else {
        var name := ReadText(file, tx.value);
        ChannelsFate(file, next.value, if sync.value != 1 then names + [name] else names, AddHeader(headers, name),
                     fuel - 1);
      }
    }
  }

  lemma {:induction false} CompositionFate(file: Contents, sub: Word, headers: seq<Bytes>, fuel: nat)
    ensures var walked, fate := WalkComposition(file, sub, headers, fuel), FateOf(CompositionStep(file), sub, fuel);
            (walked.Loops? <==> fate.Going?) && (walked.Done? <==> fate.AtEnd?)
    decreases fuel
  {
    hide ReadLink, ReadText, Plus;
    if sub != 0 && fuel > 0 && CompositionStep(file)(sub).Some? {
      var next, comp, tx := ReadLink(file, Plus(sub, 24)), ReadLink(file, Plus(sub, 32)), ReadLink(file, Plus(sub, 40));
      CompositionFate(file, next.value, if comp.value == 0 && tx.value != 0 then headers + [ReadText(file, tx.value)]
                      else headers, fuel - 1);
    }
  }

  lemma {:induction false} RawFate(file: Contents, cn: Word, headers: seq<Bytes>, fuel: nat)
    ensures WalkRaw(file, cn, headers, fuel).Loops?
            <==> NestedFate(RawHead(file), CompositionStep(file), cn, fuel).Going?
    decreases fuel
  {
    hide ReadLink, ReadText, Plus, WalkComposition, CompositionStep;
    if cn != 0 && fuel > 0 && RawHead(file)(cn).Some? {
      var next, comp, tx := ReadLink(file, Plus(cn, 24)), ReadLink(file, Plus(cn, 32)), ReadLink(file, Plus(cn, 40));
      if comp.value != 0 {
        CompositionFate(file, comp.value, headers, fuel);
        var walked := WalkComposition(file, comp.value, headers, fuel);
        if walked.Done? { RawFate(file, next.value, walked.value, fuel - 1); }
      } else {
        RawFate(file, next.value, if tx.value != 0 then headers + [ReadText(file, tx.value)] else headers, fuel - 1);
      }
    }
  }

  lemma {:induction false} GroupsFate(file: Contents, cg: Word, groups: seq<DbcGroupInfo>, headers: seq<Bytes>,
                                      fuel: nat)
    ensures WalkGroups(file, cg, groups, headers, fuel).Loops?
            <==> NestedFate(GroupHead(file), ChannelStep(file), cg, fuel).Going?
    decreases fuel
  {
    hide ReadLink, ReadInt, Plus, GroupMsgId, WalkChannels, ChannelStep;
    if cg != 0 && fuel > 0 && GroupHead(file)(cg).Some? {
      var next, cnFirst := ReadLink(file, Plus(cg, 24)), ReadLink(file, Plus(cg, 32));
      var recordId, dataBytes := ReadLink(file, Plus(cg, 72)), ReadInt(file, Plus(cg, 96), 4);
      ChannelsFate(file, cnFirst.value, [], headers, fuel);
      var walked := WalkChannels(file, cnFirst.value, [], headers, fuel);
      if walked.Done? {
        var group := DbcGroupInfo(recordId.value % 256, dataBytes.value, GroupMsgId(file, cg, recordId.value).value,
                                  walked.value.0);
        GroupsFate(file, next.value, groups + [group], walked.value.1, fuel - 1);
      }
    }
  }

  // ----- The whole file

  /**
   The file is read up to its first chain, and that chain never ends: the channel groups of a DBC session
   with their channels, or the channels of a RAW session with their compositions.
   */
  ghost predicate WalksForEver(file: Contents) {
    && |file| >= 8 && file[..8] == Ascii("MDF     ")
    && var dg, startNs := ReadLink(file, 64 + 24), ReadLink(file, 64 + 24 + 48);
       && dg.Some? && startNs.Some?
       && var cgFirst, dtFirst := ReadLink(file, Plus(dg.value, 32)), ReadLink(file, Plus(dg.value, 40));
          var recIdSize := ReadInt(file, Plus(dg.value, 56), 1);
          && cgFirst.Some? && dtFirst.Some? && recIdSize.Some?
          && if recIdSize.value == 0 then RawWalksForEver(file, cgFirst.value, dtFirst.value)
             else NeverEnds(GroupHead(file), ChannelStep(file), cgFirst.value)
  }

  ghost predicate RawWalksForEver(file: Contents, cgFirst: Word, dtFirst: Word) {
    var dtLength, cnFirst := ReadLink(file, Plus(dtFirst, 8)), ReadLink(file, Plus(cgFirst, 32));
    dtLength.Some? && cnFirst.Some? && NeverEnds(RawHead(file), CompositionStep(file), cnFirst.value)
  }

  lemma RawLoops(file: Contents, startNs: Word, cgFirst: Word, dtFirst: Word, fuel: nat)
    ensures RawWalksForEver(file, cgFirst, dtFirst) ==> ParseRaw(file, startNs, cgFirst, dtFirst, fuel) == Loops
    ensures !RawWalksForEver(file, cgFirst, dtFirst) && fuel >= LIMIT ==>
            ParseRaw(file, startNs, cgFirst, dtFirst, fuel) != Loops
  {
    hide ReadLink, Plus, WalkRaw, NeverEnds, NestedFate, LIMIT;
    var cnFirst := ReadLink(file, Plus(cgFirst, 32));
    if cnFirst.Some? {
      RawFate(file, cnFirst.value, [], fuel);
      NestedGoesOnExactly(RawHead(file), CompositionStep(file), cnFirst.value, fuel);
    }
  }

  lemma DbcLoops(file: Contents, startNs: Word, cgFirst: Word, dtFirst: Word, fuel: nat)
    ensures NeverEnds(GroupHead(file), ChannelStep(file), cgFirst) ==>
            ParseDbc(file, startNs, cgFirst, dtFirst, fuel) == Loops
    ensures !NeverEnds(GroupHead(file), ChannelStep(file), cgFirst) && fuel >= LIMIT ==>
              ParseDbc(file, startNs, cgFirst, dtFirst, fuel) != Loops
  {
    hide ReadLink, Plus, Scan, WalkGroups, NeverEnds, NestedFate, LIMIT;
    GroupsFate(file, cgFirst, [], [], fuel);
    NestedGoesOnExactly(GroupHead(file), ChannelStep(file), cgFirst, fuel);
  }

  lemma FileLoops(file: Contents, fuel: nat)
    ensures WalksForEver(file) ==> ParseFile(file, fuel) == Loops
    ensures !WalksForEver(file) && fuel >= LIMIT ==> ParseFile(file, fuel) != Loops
  {
    hide ReadLink, ReadInt, Plus, Ascii, ParseRaw, ParseDbc, NeverEnds, RawWalksForEver, LIMIT;
    var dg, startNs := ReadLink(file, 64 + 24), ReadLink(file, 64 + 24 + 48);
    if dg.Some? && startNs.Some? {
      var cgFirst, dtFirst := ReadLink(file, Plus(dg.value, 32)), ReadLink(file, Plus(dg.value, 40));
      if cgFirst.Some? && dtFirst.Some? {
        RawLoops(file, startNs.value, cgFirst.value, dtFirst.value, fuel);
        DbcLoops(file, startNs.value, cgFirst.value, dtFirst.value, fuel);
      }
    }
  }

  /** What the reader makes of a file on which its walks end. */
  ghost function Parsed(file: Contents): Outcome<Session> {
    ParseFile(file, LIMIT)
  }

  /** The walks go on whatever their bound exactly if a chain returns to one of its own blocks. */
  lemma LoopsExactly(file: Contents)
    ensures (forall fuel: nat :: ParseFile(file, fuel) == Loops) <==> WalksForEver(file)
    ensures Parsed(file) == Loops <==> WalksForEver(file)
  {
    hide ParseFile, WalksForEver, LIMIT;
    forall fuel: nat
      ensures WalksForEver(file) ==> ParseFile(file, fuel) == Loops
    {
      FileLoops(file, fuel);
    }
    FileLoops(file, LIMIT);
  }

  /** Any bound that is enough gives what the reader makes of the file. */
  lemma BoundIsEnough(file: Contents, fuel: nat)
    requires ParseFile(file, fuel) != Loops
    ensures !WalksForEver(file) && Parsed(file) == ParseFile(file, fuel)
  {
    hide ParseFile, WalksForEver, LIMIT;
    LoopsExactly(file);
    if fuel <= LIMIT { MoreFuelSameFile(file, fuel, LIMIT); } else { MoreFuelSameFile(file, LIMIT, fuel); }
  }

  // ----- Two files

  lemma {:induction false} AllZero(s: Bytes)
    requires forall i | 0 <= i < |s| :: s[i] == 0
    ensures FromLE(s) == 0
  {
    if s != [] { AllZero(s[1..]); }
  }

  lemma SmallNumber(s: Bytes)
    requires s != [] && forall i | 1 <= i < |s| :: s[i] == 0
    ensures FromLE(s) == s[0]
  {
    AllZero(s[1..]);
  }

  /** A file of 144 bytes: the identification, the given bytes, and zeros. */
  function Sparse(bytes: map<nat, Byte>): Contents {
    Ascii("MDF     ") + seq(136, i requires 0 <= i < 136 => if i + 8 in bytes then bytes[i + 8] else 0)
  }

  lemma LinkIn(bytes: map<nat, Byte>, off: nat)
    requires 8 <= off <= 136 && forall i | off < i < off + 8 :: i !in bytes
    ensures ReadLink(Sparse(bytes), off) == Some(if off in bytes then bytes[off] else 0)
  {
    hide FromLE, Ascii;
    var file := Sparse(bytes);
    forall i | 8 <= i < 144
      ensures file[i] == if i in bytes then bytes[i] else 0
    {
    }
    SmallNumber(file[off..off + 8]);
  }

  lemma ByteIn(bytes: map<nat, Byte>, off: nat)
    requires 8 <= off < 144
    ensures ReadInt(Sparse(bytes), off, 1) == Some(if off in bytes then bytes[off] else 0)
  {
    hide FromLE, Ascii;
    SmallNumber(Sparse(bytes)[off..off + 1]);
  }

  /** A RAW file whose only channel, at position 16, links to itself. */
  lemma SelfLinkLoops(fuel: nat)
    ensures var file := Sparse(map[32 := 8, 40 := 16]); WalksForEver(file) && ParseFile(file, fuel) == Loops
  {
    hide ReadLink, ReadInt, Ascii, ParseFile, LIMIT, Returns;
    var bytes: map<nat, Byte> := map[32 := 8, 40 := 16];
    var file := Sparse(bytes);
    HeaderIn(bytes);
    LinkIn(bytes, 24);
    LinkIn(bytes, 48);
    LinkIn(bytes, 56);
    assert RawHead(file)(16) == Some((16, 0));
    assert After(CompositionStep(file), 0, 0) == Some(0);
    assert Outer(RawHead(file), CompositionStep(file))(16) == Some(16);
    assert Returns(Outer(RawHead(file), CompositionStep(file)),
                   16) by { SelfLinkReturns(Outer(RawHead(file), CompositionStep(file)), 16); }
    FileLoops(file, fuel);
  }

  lemma SelfLinkReturns(step: Step, at: Word)
    requires step(at) == Some(at)
    ensures Returns(step, at)
  {
    assert After(step, at, 0) == Some(at);
    assert After(step, at, 1) == Some(at);
  }

  lemma HeaderIn(bytes: map<nat, Byte>)
    requires 32 in bytes && bytes[32] == 8 && 40 in bytes && 56 !in bytes && 88 !in bytes && 136 !in bytes
    requires forall i | i in bytes :: i % 8 == 0
    ensures var file := Sparse(bytes);
            && file[..8] == Ascii("MDF     ") && ReadLink(file, 88) == Some(0) && ReadLink(file, 136) == Some(0)
            && ReadLink(file, 32) == Some(8) && ReadLink(file, 40) == Some(bytes[40]) && ReadInt(file, 56, 1) == Some(0)
  {
    hide ReadLink, ReadInt, Ascii;
    LinkIn(bytes, 88);
    LinkIn(bytes, 136);
    LinkIn(bytes, 32);
    LinkIn(bytes, 40);
    ByteIn(bytes, 56);
  }

  /**
   A RAW file whose only channel, at position 104, links to itself too, but ends inside that channel: it is refused.
   */
  lemma CutSelfLinkIsRefused()
    ensures var file := Sparse(map[32 := 8, 40 := 104, 128 := 104]);
            ReadLink(file, Plus(104, 24)) == Some(104) && !WalksForEver(file) && Parsed(file) == Fails
  {
    hide ReadLink, ReadInt, Ascii, LIMIT, WalksForEver;
    var bytes: map<nat, Byte> := map[32 := 8, 40 := 104, 128 := 104];
    var file := Sparse(bytes);
    HeaderIn(bytes);
    LinkIn(bytes, 112);
    LinkIn(bytes, 128);
    assert ReadLink(file, 144) == None by { BehindTheEnd(file); }
    assert WalkRaw(file, 104, [], 1) == Fails;
    assert ParseFile(file, 1) == Fails;
    BoundIsEnough(file, 1);
  }

  lemma BehindTheEnd(file: Contents)
    requires |file| == 144
    ensures ReadLink(file, 144) == None
  {
  }
}
