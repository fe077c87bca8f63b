/**
 * The query side of backend/rag.py: where ensure_index places a new index,
 * the rule that it creates the index only when the name is absent, the
 * projection of the vector store's matches into passages, the prompt sent to
 * the language model, and the answer with its deduplicated sources.
 *
 * The vector store's query, the embedding model and the HTTP call to the
 * language model enter as parameters: the matches the query returned (or the
 * error it raised) and a `generate` function from prompt to reply.
 */
module Rag {
  import opened Strings

  datatype Result<T> = Ok(value: T) | Err(message: string)

  // ---------------------------------------------------------------------
  // ensure_index: region and cloud from the environment string
  // ---------------------------------------------------------------------

  /** Where a new serverless index is created. */
  datatype Placement = Placement(region: string, cloud: string)

  const DefaultPlacement := Placement("us-east-1", "aws")

  /**
   * The environment string split on '-': with four or more parts the first
   * three joined by '-' are the region and the fourth is the cloud, with
   * exactly two parts they are the region and the cloud, and otherwise the
   * default placement is used.
   */
  function ParsePlacement(env: string): (p: Placement)
    ensures '-' !in p.cloud
  {
    var parts := Split(env, '-');
    if |parts| >= 4 then Placement(Join(parts[..3], "-"), parts[3])
    else if |parts| == 2 then Placement(parts[0], parts[1])
    else DefaultPlacement
  }

  /** Joining two non-empty lists of parts puts one separator between their joins. */
  lemma {:induction false} JoinConcat(a: seq<string>, b: seq<string>, sep: string)
    requires |a| >= 1 && |b| >= 1
    ensures Join(a + b, sep) == Join(a, sep) + sep + Join(b, sep)
  {
    if |a| == 1 {
      assert (a + b)[1..] == b;
    } else {
      assert (a + b)[1..] == a[1..] + b;
      JoinConcat(a[1..], b, sep);
    }
  }

  /** Parts free of the separator, joined by it, hold one separator per gap. */
  lemma {:induction false} CountJoin(parts: seq<string>, c: char)
    requires |parts| >= 1
    requires forall i :: 0 <= i < |parts| ==> c !in parts[i]
    ensures Count(Join(parts, [c]), c) == |parts| - 1
  {
    CountAbsent(parts[0], c);
    if |parts| > 1 {
      CountJoin(parts[1..], c);
      CountConcat(parts[0], [c], c);
      CountConcat(parts[0] + [c], Join(parts[1..], [c]), c);
    }
  }

  /**
   * ParsePlacement by the number of dashes in the environment string: none
   * or two give the default; one splits the string into region and cloud;
   * three or more give a region holding exactly two dashes and a dash-free
   * cloud that together, joined by a dash, begin the string, which either
   * ends there or goes on with a dash.
   */
  lemma ParsePlacementCases(env: string)
    ensures Count(env, '-') == 0 || Count(env, '-') == 2 ==> ParsePlacement(env) == DefaultPlacement
    ensures Count(env, '-') == 1 ==>
      var p := ParsePlacement(env);
      env == p.region + "-" + p.cloud && '-' !in p.region && '-' !in p.cloud
    ensures Count(env, '-') >= 3 ==>
      var p := ParsePlacement(env);
      var n := |p.region| + 1 + |p.cloud|;
      Count(p.region, '-') == 2 && '-' !in p.cloud && n <= |env|
      && env[..n] == p.region + "-" + p.cloud && (n == |env| || env[n] == '-')
  {
    var parts := Split(env, '-');
    var p := ParsePlacement(env);
    if |parts| == 2 {
      assert env == Join(parts, "-") == parts[0] + "-" + parts[1];
    } else if |parts| >= 4 {
      var head := parts[..4];
      assert head == parts[..3] + [parts[3]];
      JoinAppend(parts[..3], parts[3], "-");
      CountJoin(parts[..3], '-');
      var n := |p.region| + 1 + |p.cloud|;
      if |parts| == 4 {
        assert parts == head;
      } else {
        assert parts == head + parts[4..];
        JoinConcat(head, parts[4..], "-");
        assert env == (p.region + "-" + p.cloud) + ("-" + Join(parts[4..], "-"));
      }
      assert env[..n] == p.region + "-" + p.cloud;
    }
  }

  /** A region and a cloud without dashes, written region-cloud, parse back to themselves. */
  lemma PlacementFromTwoParts(region: string, cloud: string)
    requires '-' !in region && '-' !in cloud
    ensures ParsePlacement(region + "-" + cloud) == Placement(region, cloud)
  {
    SplitAtSeparator(region, cloud, '-');
    SplitWithoutSeparator(region, '-');
    SplitWithoutSeparator(cloud, '-');
  }

  /**
   * A three-part region and a cloud, written r1-r2-r3-cloud and followed by
   * anything that starts with a dash, parse to that region and cloud: the
   * parts after the fourth are ignored.
   */
  lemma PlacementFromFourParts(r1: string, r2: string, r3: string, cloud: string, rest: string)
    requires '-' !in r1 && '-' !in r2 && '-' !in r3 && '-' !in cloud
    requires rest == [] || rest[0] == '-'
    ensures ParsePlacement(r1 + "-" + r2 + "-" + r3 + "-" + cloud + rest) == Placement(r1 + "-" + r2 + "-" + r3, cloud)
  {
    var head := [r1, r2, r3, cloud];
    var env := r1 + "-" + r2 + "-" + r3 + "-" + cloud + rest;
    JoinFour(r1, r2, r3, cloud);
    if rest == [] {
      assert env == Join(head, "-");
      SplitJoin(head, '-');
    } else {
      assert env == Join(head, "-") + "-" + rest[1..];
      SplitJoinedThenMore(head, rest[1..], '-');
    }
    assert Split(env, '-')[..3] == [r1, r2, r3];
  }

  /**
   * Separator-free parts joined by the separator, then the separator and
   * more text, split into those parts followed by the pieces of the rest.
   */
  lemma SplitJoinedThenMore(head: seq<string>, more: string, sep: char)
    requires |head| >= 1 && forall i :: 0 <= i < |head| ==> sep !in head[i]
    ensures Split(Join(head, [sep]) + [sep] + more, sep) == head + Split(more, sep)
  {
    SplitJoin(head, sep);
    SplitAtSeparator(Join(head, [sep]), more, sep);
  }

  lemma JoinFour(r1: string, r2: string, r3: string, cloud: string)
    ensures Join([r1, r2, r3], "-") == r1 + "-" + r2 + "-" + r3
    ensures Join([r1, r2, r3, cloud], "-") == r1 + "-" + r2 + "-" + r3 + "-" + cloud
  {
    assert [r1, r2, r3][1..] == [r2, r3];
    assert [r2, r3][1..] == [r3];
    assert Join([r2, r3], "-") == r2 + "-" + r3;
    assert [r1, r2, r3, cloud][1..] == [r2, r3, cloud];
    assert [r2, r3, cloud][1..] == [r3, cloud];
    assert [r3, cloud][1..] == [cloud];
    assert Join([r3, cloud], "-") == r3 + "-" + cloud;
    assert Join([r2, r3, cloud], "-") == r2 + "-" + (r3 + "-" + cloud);
  }

  /** The default environment string places the index in the default region and cloud. */
  lemma DefaultEnvironmentPlacement()
    ensures ParsePlacement("us-east-1-aws") == DefaultPlacement
  {
    PlacementFromFourParts("us", "east", "1", "aws", "");
    DefaultEnvironmentSpelling();
  }

  /** The default environment string and region, spelled as their dash-separated parts. */
  lemma DefaultEnvironmentSpelling()
    ensures "us" + "-" + "east" + "-" + "1" + "-" + "aws" + "" == "us-east-1-aws"
    ensures "us" + "-" + "east" + "-" + "1" == "us-east-1"
  {
  }

  // ---------------------------------------------------------------------
  // ensure_index: create only when absent
  // ---------------------------------------------------------------------

  /** What create_index is given for a new index. */
  datatype IndexSpec = IndexSpec(dimension: int, metric: string, placement: Placement)

  /**
   * The indexes of the account after ensure_index(name, dimension): a new
   * cosine index placed by the environment string when no index of that name
   * exists, and nothing changed otherwise, whatever the existing index's
   * dimension and metric.
   */
  function EnsureIndex(existing: map<string, IndexSpec>, name: string, dimension: int, env: string)
    : (after: map<string, IndexSpec>)
    ensures after.Keys == existing.Keys + {name}
    ensures forall n :: n in existing ==> n in after && after[n] == existing[n]
    ensures name !in existing ==> after[name] == IndexSpec(dimension, "cosine", ParsePlacement(env))
  {
    if name in existing then existing
    else existing[name := IndexSpec(dimension, "cosine", ParsePlacement(env))]
  }

  /**
   * A second ensure_index of the same name changes nothing, even with another
   * dimension or environment: the existing index is never checked.
   */
  lemma EnsureIndexIdempotent(existing: map<string, IndexSpec>, name: string, d1: int, d2: int, e1: string, e2: string)
    ensures EnsureIndex(EnsureIndex(existing, name, d1, e1), name, d2, e2) == EnsureIndex(existing, name, d1, e1)
  {
  }

  // ---------------------------------------------------------------------
  // retrieve: matches to passages
  // ---------------------------------------------------------------------

  /** One match of the vector query: its metadata and its score. */
  datatype Match<S> = Match(metadata: map<string, string>, score: S)

  /** A retrieved passage: its text, its source and its score. */
  datatype Passage<S> = Passage(text: string, source: string, score: S)

  /** The metadata value under key, or the default when the key is missing. */
  function Get(md: map<string, string>, key: string, default: string): string {
    if key in md then md[key] else default
  }

  /** The passages retrieve builds from the matches, in match order. */
  function Projection<S>(matches: seq<Match<S>>): (docs: seq<Passage<S>>)
    ensures |docs| == |matches|
  {
    seq(|matches|, i requires 0 <= i < |matches| =>
      Passage(Get(matches[i].metadata, "text", ""), Get(matches[i].metadata, "source", "unknown"), matches[i].score))
  }

  /**
   * retrieve's loop over the matches: one passage per match in the same
   * order, its text and source from the metadata with "" and "unknown" when
   * missing, its score copied.
   */
  method Retrieve<S>(matches: seq<Match<S>>) returns (docs: seq<Passage<S>>)
    ensures docs == Projection(matches)
    ensures |docs| == |matches|
    ensures forall i :: 0 <= i < |docs| ==> docs[i].score == matches[i].score
    ensures forall i :: 0 <= i < |docs| ==>
      (if "text" in matches[i].metadata then docs[i].text == matches[i].metadata["text"] else docs[i].text == "")
    ensures forall i :: 0 <= i < |docs| ==>
      (if "source" in matches[i].metadata then docs[i].source == matches[i].metadata["source"]
       else docs[i].source == "unknown")
  {
    docs := [];
    for i := 0 to |matches|
      invariant docs == Projection(matches[..i])
    {
      var md := matches[i].metadata;
      docs := docs + [Passage(Get(md, "text", ""), Get(md, "source", "unknown"), matches[i].score)];
    }
    assert matches[..|matches|] == matches;
  }

  // ---------------------------------------------------------------------
  // _build_prompt
  // ---------------------------------------------------------------------

  const System := "You are Jarvis, a concise enterprise assistant. Answer the user's question using the provided context. "
    + "If the answer is not in the context, say you don't know. Cite sources as [source] at the end."

  /** What the prompt holds before the context. */
  const Preamble := System + "\n\nContext:\n"

  /** What separates two context blocks. */
  const Separator := "\n---\n"

  /** One context block: the passage's source line, then its text. */
  function Block<S>(d: Passage<S>): string {
    "Source: " + d.source + "\n" + d.text
  }

  function Blocks<S>(docs: seq<Passage<S>>): (blocks: seq<string>)
    ensures |blocks| == |docs|
  {
    seq(|docs|, i requires 0 <= i < |docs| => Block(docs[i]))
  }

  /** The context: the passages' blocks in passage order, separated by Separator. */
  function Context<S>(docs: seq<Passage<S>>): string {
    Join(Blocks(docs), Separator)
  }

  /** What the prompt holds after the question. */
  function QuestionTail(question: string): string {
    QuestionHeading + question + AnswerCue
  }

  function BuildPrompt<S>(question: string, docs: seq<Passage<S>>): string {
    Preamble + Context(docs) + QuestionTail(question)
  }

  /** What ends the prompt after the question. */
  const AnswerCue := "\nAnswer:"

  /** What comes between the context and the question. */
  const QuestionHeading := "\n\nQuestion: "

  /**
   * Each passage's block lies in the prompt right after the instructions, at
   * its offset in the context: in passage order, one separator apart.
   */
  lemma PromptPassageAt<S>(question: string, docs: seq<Passage<S>>, i: nat)
    requires i < |docs|
    ensures var o := |Preamble| + PartOffset(Blocks(docs), Separator, i);
      o + |Block(docs[i])| <= |BuildPrompt(question, docs)|
      && BuildPrompt(question, docs)[o..o + |Block(docs[i])|] == Block(docs[i])
  {
    var blocks := Blocks(docs);
    JoinPartAt(blocks, Separator, i);
    assert blocks[i] == Block(docs[i]);
    InfixOfMiddle(BuildPrompt(question, docs), Preamble, Context(docs), QuestionTail(question),
                  PartOffset(blocks, Separator, i), |blocks[i]|);
  }

  /** A slice of the middle part of a three-part concatenation, shifted by the first part's length. */
  lemma InfixOfMiddle(p: string, a: string, c: string, t: string, o: nat, len: nat)
    requires p == a + c + t && o + len <= |c|
    ensures |a| + o + len <= |p|
    ensures p[|a| + o..|a| + o + len] == c[o..o + len]
  {
  }

  /**
   * The prompt starts with the instructions and ends with the question
   * heading, the question itself and the answer cue, whatever the passages.
   */
  lemma PromptQuestionAt<S>(question: string, docs: seq<Passage<S>>)
    ensures var p := BuildPrompt(question, docs);
      var q := |p| - |AnswerCue| - |question|;
      |System| <= |Preamble| <= q - |QuestionHeading|
      && p[..|System|] == System
      && p[q - |QuestionHeading|..q] == QuestionHeading
      && p[q..q + |question|] == question
      && p[q + |question|..] == AnswerCue
  {
    var p := BuildPrompt(question, docs);
    var c := Context(docs);
    assert QuestionTail(question) == QuestionHeading + question + AnswerCue;
    assert p == Preamble + c + QuestionHeading + question + AnswerCue;
    assert Preamble == System + "\n\nContext:\n";
  }

  /** With no passage the context is empty and the prompt is the instructions and the question. */
  lemma PromptWithoutPassages<S>(question: string)
    ensures Context<S>([]) == ""
    ensures BuildPrompt<S>(question, []) == Preamble + QuestionTail(question)
  {
    assert Blocks<S>([]) == [];
  }

  /**
   * The context holds each passage's block, in passage order, with exactly
   * one separator between neighbours and none before the first or after the
   * last: n passages give n - 1 separators.
   */
  lemma ContextBlocks<S>(docs: seq<Passage<S>>, i: nat)
    requires i < |docs|
    ensures PartOffset(Blocks(docs), Separator, i) + |Block(docs[i])| <= |Context(docs)|
    ensures Context(docs)[PartOffset(Blocks(docs), Separator, i)..PartOffset(Blocks(docs), Separator, i) + |Block(docs[i])|]
         == Block(docs[i])
    ensures i + 1 < |docs| ==>
      PartOffset(Blocks(docs), Separator, i + 1) == PartOffset(Blocks(docs), Separator, i) + |Block(docs[i])| + |Separator|
      && PartOffset(Blocks(docs), Separator, i + 1) <= |Context(docs)|
      && Context(docs)[PartOffset(Blocks(docs), Separator, i) + |Block(docs[i])|..PartOffset(Blocks(docs), Separator, i + 1)]
         == Separator
    ensures i == 0 ==> PartOffset(Blocks(docs), Separator, i) == 0
    ensures i + 1 == |docs| ==> PartOffset(Blocks(docs), Separator, i) + |Block(docs[i])| == |Context(docs)|
  {
    var blocks := Blocks(docs);
    JoinPartAt(blocks, Separator, i);
    if i + 1 < |docs| {
      JoinSeparatorAt(blocks, Separator, i);
    }
    if i + 1 == |docs| {
      JoinLength(blocks, Separator);
      LastPartOffset(blocks, Separator);
    }
  }

  /** The last part of a join starts after every other part and one separator each. */
  lemma {:induction false} LastPartOffset(parts: seq<string>, sep: string)
    requires |parts| >= 1
    ensures PartOffset(parts, sep, |parts| - 1) == TotalLength(parts) - |parts[|parts| - 1]| + (|parts| - 1) * |sep|
  {
    if |parts| > 1 {
      LastPartOffset(parts[1..], sep);
      assert (|parts| - 1) * |sep| == (|parts| - 2) * |sep| + |sep|;
    }
  }

  /** The context's length: every block plus one separator per gap. */
  lemma ContextLength<S>(docs: seq<Passage<S>>)
    requires |docs| >= 1
    ensures |Context(docs)| == TotalLength(Blocks(docs)) + (|docs| - 1) * |Separator|
  {
    JoinLength(Blocks(docs), Separator);
  }

  // ---------------------------------------------------------------------
  // answer: deduplicated sources and the stripped answer
  // ---------------------------------------------------------------------

  /** An entry of the sources answer returns. */
  datatype SourceScore<S> = SourceScore(source: string, score: S)

  /** The passages' sources, in passage order. */
  function SourceList<S>(docs: seq<Passage<S>>): (sources: seq<string>)
    ensures |sources| == |docs|
  {
    seq(|docs|, i requires 0 <= i < |docs| => docs[i].source)
  }

  /** The distinct sources of the passages. */
  function SourcesOf<S>(docs: seq<Passage<S>>): set<string> {
    set s | s in SourceList(docs)
  }

  /** The sources answer returns: one entry per source, at its first passage, with that passage's score. */
  function FirstBySource<S>(docs: seq<Passage<S>>): (sources: seq<SourceScore<S>>)
    ensures |sources| <= |docs|
  {
    if docs == [] then []
    else
      var init := docs[..|docs| - 1];
      var d := docs[|docs| - 1];
      if d.source in SourceList(init) then FirstBySource(init)
      else FirstBySource(init) + [SourceScore(d.source, d.score)]
  }

  /** The index of the first occurrence of s in xs. */
  function FirstIndex(xs: seq<string>, s: string): (i: nat)
    requires s in xs
    ensures i < |xs| && xs[i] == s
    ensures forall j :: 0 <= j < i ==> xs[j] != s
  {
    var init := xs[..|xs| - 1];
    if s in init then FirstIndex(init, s) else |xs| - 1
  }

  lemma SourceListAppend<S>(docs: seq<Passage<S>>)
    requires docs != []
    ensures SourceList(docs) == SourceList(docs[..|docs| - 1]) + [docs[|docs| - 1].source]
  {
  }

  /** Adding a passage to the end keeps the first occurrence of every source seen before. */
  lemma FirstIndexAppend(xs: seq<string>, s: string)
    requires xs != [] && s in xs[..|xs| - 1]
    ensures FirstIndex(xs, s) == FirstIndex(xs[..|xs| - 1], s)
  {
  }

  /** Every source of the passages appears in the result, and no other source, each once. */
  lemma {:induction false} FirstBySourceDistinct<S>(docs: seq<Passage<S>>)
    ensures forall k :: 0 <= k < |FirstBySource(docs)| ==> FirstBySource(docs)[k].source in SourceList(docs)
    ensures forall s :: s in SourceList(docs) ==> exists k :: 0 <= k < |FirstBySource(docs)| && FirstBySource(docs)[k].source == s
    ensures forall k, l :: 0 <= k < l < |FirstBySource(docs)| ==> FirstBySource(docs)[k].source != FirstBySource(docs)[l].source
  {
    if docs != [] {
      var init := docs[..|docs| - 1];
      FirstBySourceDistinct(init);
      SourceListAppend(docs);
      var r := FirstBySource(init);
      var last := docs[|docs| - 1].source;
      if last !in SourceList(init) {
        var r' := r + [SourceScore(last, docs[|docs| - 1].score)];
        assert FirstBySource(docs) == r';
        forall s | s in SourceList(docs) ensures exists k :: 0 <= k < |r'| && r'[k].source == s {
          if s in SourceList(init) {
            var k :| 0 <= k < |r| && r[k].source == s;
            assert r'[k] == r[k];
          } else {
            assert r'[|r|].source == s;
          }
        }
      } else {
        assert FirstBySource(docs) == r;
        forall s | s in SourceList(docs) ensures exists k :: 0 <= k < |r| && r[k].source == s {
          assert s in SourceList(init);
        }
      }
    }
  }

  /** As many entries as distinct sources. */
  lemma {:induction false} FirstBySourceCount<S>(docs: seq<Passage<S>>)
    ensures |FirstBySource(docs)| == |SourcesOf(docs)|
  {
    if docs == [] {
      assert SourcesOf(docs) == {};
    } else {
      var init := docs[..|docs| - 1];
      var last := docs[|docs| - 1].source;
      FirstBySourceCount(init);
      SourceListAppend(docs);
      assert SourcesOf(docs) == SourcesOf(init) + {last};
      if last in SourceList(init) {
        assert SourcesOf(docs) == SourcesOf(init);
        assert FirstBySource(docs) == FirstBySource(init);
      } else {
        assert last !in SourcesOf(init);
        assert |FirstBySource(docs)| == |FirstBySource(init)| + 1;
      }
    }
  }

  /**
   * Each entry carries the score of its source's first passage, and the
   * entries follow the order of those first passages, so the result is the
   * subsequence of first occurrences: a later passage of the same source is
   * dropped even when its score is higher.
   */
  lemma {:induction false} FirstBySourceFirstOccurrence<S>(docs: seq<Passage<S>>)
    ensures forall k :: 0 <= k < |FirstBySource(docs)| ==>
      FirstBySource(docs)[k].source in SourceList(docs)
      && FirstBySource(docs)[k].score == docs[FirstIndex(SourceList(docs), FirstBySource(docs)[k].source)].score
    ensures forall k, l :: 0 <= k < l < |FirstBySource(docs)| ==>
      FirstBySource(docs)[k].source in SourceList(docs) && FirstBySource(docs)[l].source in SourceList(docs)
      && FirstIndex(SourceList(docs), FirstBySource(docs)[k].source) < FirstIndex(SourceList(docs), FirstBySource(docs)[l].source)
  {
    if docs != [] {
      var init := docs[..|docs| - 1];
      var xs := SourceList(docs);
      FirstBySourceFirstOccurrence(init);
      FirstBySourceDistinct(init);
      SourceListAppend(docs);
      var r := FirstBySource(init);
      forall k | 0 <= k < |r|
        ensures FirstIndex(xs, r[k].source) == FirstIndex(SourceList(init), r[k].source)
      {
        FirstIndexAppend(xs, r[k].source);
      }
    }
  }

  /** The running example: a repeated source keeps its first score, not its later higher one. */
  lemma RepeatedSourceKeepsFirstScore()
    ensures FirstBySource([Passage("a", "doc1", 0.9), Passage("b", "doc2", 0.8), Passage("c", "doc1", 0.95)])
         == [SourceScore("doc1", 0.9), SourceScore("doc2", 0.8)]
  {
    var docs := [Passage("a", "doc1", 0.9), Passage("b", "doc2", 0.8), Passage("c", "doc1", 0.95)];
    var two, one := docs[..2], docs[..1];
    assert two[..1] == one && one[..0] == [];
    assert SourceList(one[..0]) == [];
    assert FirstBySource(one) == [SourceScore("doc1", 0.9)];
    assert SourceList(one) == ["doc1"];
    assert FirstBySource(two) == [SourceScore("doc1", 0.9), SourceScore("doc2", 0.8)];
    assert SourceList(two) == ["doc1", "doc2"];
  }

  /** answer's loop over the passages with a seen set: the first entry per source, in order. */
  method DedupSources<S>(docs: seq<Passage<S>>) returns (sources: seq<SourceScore<S>>)
    ensures sources == FirstBySource(docs)
  {
    sources := [];
    var seen: set<string> := {};
    for i := 0 to |docs|
      invariant sources == FirstBySource(docs[..i])
      invariant seen == SourcesOf(docs[..i])
    {
      assert docs[..i + 1][..i] == docs[..i];
      SourceListAppend(docs[..i + 1]);
      var s := docs[i].source;
      if s !in seen {
        sources := sources + [SourceScore(s, docs[i].score)];
        seen := seen + {s};
      }
    }
    assert docs[..|docs|] == docs;
  }

  /** What answer returns: the model's reply, stripped, and the sources. */
  datatype Reply<S> = Reply(answer: string, sources: seq<SourceScore<S>>)

  /**
   * answer: retrieve the passages for the question, send the prompt built
   * from them to the language model, and return its reply stripped with the
   * deduplicated sources. A failed query or a failed call to the model is
   * passed on as the error.
   */
  method Answer<S>(question: string, retrieved: Result<seq<Match<S>>>, generate: string -> Result<string>)
    returns (r: Result<Reply<S>>)
    ensures retrieved.Err? ==> r == Err(retrieved.message)
    ensures retrieved.Ok? ==>
      var prompt := BuildPrompt(question, Projection(retrieved.value));
      (generate(prompt).Err? ==> r == Err(generate(prompt).message))
      && (generate(prompt).Ok? ==> r.Ok? && r.value.answer == Strip(generate(prompt).value))
    ensures r.Ok? ==> Strip(r.value.answer) == r.value.answer
    ensures r.Ok? ==> r.value.sources == FirstBySource(Projection(retrieved.value))
  {
    if retrieved.Err? {
      return Err(retrieved.message);
    }
    var docs := Retrieve(retrieved.value);
    var prompt := BuildPrompt(question, docs);
    var generated := generate(prompt);
    if generated.Err? {
      return Err(generated.message);
    }
    var sources := DedupSources(docs);
    StripIdempotent(generated.value);
    r := Ok(Reply(Strip(generated.value), sources));
  }
}
