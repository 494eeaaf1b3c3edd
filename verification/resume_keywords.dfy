/**
 * `extractResumeKeywords` (script.js): the lower-cased labels of the
 * skill tags followed by the lower-cased title, without repetitions.
 * The page is read by the caller; its texts are the parameters here.
 */
module ResumeKeywords {
  import opened Sequences
  import opened Text

  /** The lower-cased text of each skill tag. */
  function LowerAll(skills: seq<string>): (r: seq<string>)
    ensures |r| == |skills|
    ensures forall i :: 0 <= i < |skills| ==> r[i] == ToLower(skills[i])
  {
    seq(|skills|, i requires 0 <= i < |skills| => ToLower(skills[i]))
  }

  /** The lowered skills and title, each kept at its first appearance. */
  function ExtractResumeKeywords(skills: seq<string>, title: string): (r: seq<string>)
    ensures |r| <= |skills| + 1
    ensures Distinct(r)
    ensures forall k :: k in r <==>
      k == ToLower(title) || exists i :: 0 <= i < |skills| && k == ToLower(skills[i])
  {
    var all := LowerAll(skills) + [ToLower(title)];
    assert forall k :: k in all <==>
      k == ToLower(title) || exists i :: 0 <= i < |skills| && k == ToLower(skills[i]);
    Dedup(all)
  }

  /**
   * The keywords keep the order of first appearance among the lowered
   * skills followed by the lowered title; the first skill stays first.
   */
  lemma ResumeKeywordsOrder(skills: seq<string>, title: string)
    ensures IsSubseq(ExtractResumeKeywords(skills, title), LowerAll(skills) + [ToLower(title)])
    ensures skills != [] ==> ExtractResumeKeywords(skills, title)[0] == ToLower(skills[0])
    ensures forall p, q :: 0 <= p < q < |ExtractResumeKeywords(skills, title)| ==>
      FirstIndex(LowerAll(skills) + [ToLower(title)], ExtractResumeKeywords(skills, title)[p]) <
      FirstIndex(LowerAll(skills) + [ToLower(title)], ExtractResumeKeywords(skills, title)[q])
  {
    var all := LowerAll(skills) + [ToLower(title)];
    DedupIsSubseq(all);
    DedupKeepsHead(all);
    forall p, q | 0 <= p < q < |Dedup(all)|
      ensures FirstIndex(all, Dedup(all)[p]) < FirstIndex(all, Dedup(all)[q])
    {
      DedupFirstOccurrenceOrder(all, p, q);
    }
  }
}
