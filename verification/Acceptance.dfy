/** Which sources addSource accepts, whatever was added before, and what they add to the output. */
module Acceptance {
  import opened Sequences
  import opened Vlq
  import opened SourceMapModel
  import opened SourceMapTheorems

  /** Every byte of the map's mappings is a separator or a character of the table. */
  ghost predicate Acceptable(s: Source) {
    forall i :: 0 <= i < |s.mappings| ==> Legal(s.mappings[i])
  }

  lemma {:induction false} RunAccepts(l: Loop, remap: seq<nat>, bs: seq<Byte>)
    ensures RunBytes(l, remap, bs).Some? <==> forall i :: 0 <= i < |bs| ==> Legal(bs[i])
    decreases |bs|
  {
    hide Legal;
    if bs != [] {
      StepAccepts(l, remap, bs[0]);
      assert forall i :: 0 < i < |bs| ==> bs[i] == bs[1..][i - 1];
      var r := StepByte(l, remap, bs[0]);
      if r.Some? {
        RunAccepts(r.value, remap, bs[1..]);
      }
    }
  }

  lemma StepAccepts(l: Loop, remap: seq<nat>, b: Byte)
    ensures StepByte(l, remap, b).Some? <==> Legal(b)
  {
  }

  /** addSource throws exactly on a byte outside the alphabet, and otherwise appends the text. */
  lemma AcceptedAnywhere(b: Builder, s: Source)
    ensures AddSource(b, s).Some? <==> Acceptable(s)
    ensures AddSource(b, s).Some? ==> AddSource(b, s).value.output == b.output + s.content
  {
    hide RunBytes, FinishLoop, AddNames;
    RunAccepts(StartLoop(b), AddNames(Remapped(b.sources, []), s.sources).remap, s.mappings);
  }

  /** A list of sources is accepted exactly when each is, and the output is their text. */
  lemma {:induction false} AcceptedAll(b: Builder, ss: seq<Source>)
    ensures AddSources(b, ss).Some? <==> forall i :: 0 <= i < |ss| ==> Acceptable(ss[i])
    ensures AddSources(b, ss).Some? ==> AddSources(b, ss).value.output == b.output + Contents(ss)
    decreases |ss|
  {
    hide AddSource, Acceptable;
    if ss == [] {
      assert b.output + Contents(ss) == b.output;
    } else {
      AcceptedAnywhere(b, ss[0]);
      assert forall i :: 0 < i < |ss| ==> ss[i] == ss[1..][i - 1];
      if Acceptable(ss[0]) {
        AcceptedAll(AddSource(b, ss[0]).value, ss[1..]);
        Assoc(b.output, ss[0].content, Contents(ss[1..]));
      }
    }
  }
}
