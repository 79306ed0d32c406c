/**
 * The sentence database of the audio generator: each German-English pair is filed
 * under a key derived from its English sentence, with a flag saying whether its
 * audio exists. The model of the generator's reply is unwrapped from a Markdown
 * code fence before its JSON is read. Speech synthesis, the model call, the JSON
 * file and the audio files are outside the model; the database is the in-memory
 * map the generator loads, changes and saves back.
 */
module SentenceStore {
  import opened Wrappers
  import opened Text
  import opened Dicts

  // ---------------------------------------------------------------------------
  // Key derivation
  // ---------------------------------------------------------------------------

  /** The most characters a key keeps. */
  const MaxKeyLength: nat := 60

  predicate HasAlnum(s: string) {
    exists i :: 0 <= i < |s| && IsAlnum(s[i])
  }

  /** `''.join(c if c.isalnum() or c.isspace() else '' for c in s)`: punctuation and symbols dropped. */
  function KeepAlnumOrSpace(s: string): (r: string)
    ensures AlnumOrSpaceOnly(r)
    ensures HasAlnum(r) <==> HasAlnum(s)
  {
    if s == [] then []
    else
      var rest := KeepAlnumOrSpace(s[1..]);
      assert HasAlnum(s) <==> IsAlnum(s[0]) || HasAlnum(s[1..]) by {
        if HasAlnum(s) && !IsAlnum(s[0]) {
          var i :| 0 <= i < |s| && IsAlnum(s[i]);
          assert s[1..][i - 1] == s[i];
        }
        if HasAlnum(s[1..]) {
          var i :| 0 <= i < |s[1..]| && IsAlnum(s[1..][i]);
          assert s[i + 1] == s[1..][i];
        }
      }
      if IsAlnum(s[0]) || IsSpace(s[0]) then
        var r := [s[0]] + rest;
        assert r[1..] == rest;
        assert HasAlnum(r) <==> IsAlnum(r[0]) || HasAlnum(rest) by {
          if HasAlnum(r) && !IsAlnum(r[0]) {
            var i :| 0 <= i < |r| && IsAlnum(r[i]);
            assert rest[i - 1] == r[i];
          }
          if HasAlnum(rest) {
            var i :| 0 <= i < |rest| && IsAlnum(rest[i]);
            assert r[i + 1] == rest[i];
          }
        }
        r
      else rest
  }

  /** One character is kept exactly when it is a letter, a digit or whitespace. */
  lemma KeepAlnumOrSpaceChar(c: char)
    ensures KeepAlnumOrSpace([c]) == if IsAlnum(c) || IsSpace(c) then [c] else []
  {
    assert [c][1..] == [];
  }

  /** The filter works piece by piece: what is kept of a + b is what is kept of a, then of b. */
  lemma {:induction false} KeepAlnumOrSpaceConcat(a: string, b: string)
    ensures KeepAlnumOrSpace(a + b) == KeepAlnumOrSpace(a) + KeepAlnumOrSpace(b)
    decreases |a|
  {
    if a == [] {
      assert a + b == b;
    } else {
      assert (a + b)[0] == a[0];
      assert (a + b)[1..] == a[1..] + b;
      KeepAlnumOrSpaceConcat(a[1..], b);
    }
  }

  /**
   * The file-name key of an English sentence: lower-cased, stripped of everything
   * but letters, digits and whitespace, its words joined by underscores, cut to 60.
   */
  function DeriveKey(english: string): string {
    var joined := JoinWith(Words(KeepAlnumOrSpace(Lower(english))), '_');
    joined[..if |joined| < MaxKeyLength then |joined| else MaxKeyLength]
  }

  /** The shape of every key: letters, digits and single underscores between them, none first. */
  predicate KeyShape(k: string) {
    && (forall i :: 0 <= i < |k| ==> IsAlnum(k[i]) || k[i] == '_')
    && (k == [] || k[0] != '_')
    && (forall i :: 0 <= i < |k| - 1 ==> !(k[i] == '_' && k[i + 1] == '_'))
  }

  /** Joining non-empty words of letters and digits with underscores gives a key shape. */
  lemma {:induction false} JoinKeyShape(ws: seq<string>)
    requires AllAlnumWords(ws)
    requires forall k :: 0 <= k < |ws| ==> ws[k] != []
    ensures KeyShape(JoinWith(ws, '_'))
    ensures JoinWith(ws, '_') == [] <==> ws == []
  {
    if |ws| > 1 {
      var rest := JoinWith(ws[1..], '_');
      assert AllAlnumWords(ws[1..]) by {
        forall k | 0 <= k < |ws| - 1 ensures AlnumOnly(ws[1..][k]) {
          assert ws[1..][k] == ws[k + 1];
        }
      }
      JoinKeyShape(ws[1..]);
      var w := ws[0];
      var r := w + ['_'] + rest;
      assert AlnumOnly(w);
      assert rest[0] == ws[1][0] && AlnumOnly(ws[1]);
      forall i | 0 <= i < |r| ensures IsAlnum(r[i]) || r[i] == '_' {
        if i > |w| { assert r[i] == rest[i - |w| - 1]; }
      }
      forall i | 0 <= i < |r| - 1 ensures !(r[i] == '_' && r[i + 1] == '_') {
        if i > |w| { assert r[i] == rest[i - |w| - 1] && r[i + 1] == rest[i - |w|]; }
      }
    } else if |ws| == 1 {
      assert AlnumOnly(ws[0]);
    }
  }

  /** Cutting a key short keeps its shape. */
  lemma PrefixKeyShape(k: string, n: nat)
    requires KeyShape(k) && n <= |k|
    ensures KeyShape(k[..n])
  {
    var p := k[..n];
    assert forall i :: 0 <= i < |p| ==> p[i] == k[i];
  }

  /**
   * Every key is at most 60 characters of letters, digits and underscores, never starts
   * with an underscore nor holds two in a row, and is empty exactly when the sentence
   * holds no letter or digit.
   */
  lemma DerivedKeyShape(english: string)
    ensures |DeriveKey(english)| <= MaxKeyLength
    ensures KeyShape(DeriveKey(english))
    ensures DeriveKey(english) == [] <==> !HasAlnum(english)
  {
    var kept := KeepAlnumOrSpace(Lower(english));
    var ws := Words(kept);
    WordsAreAlnum(kept);
    WordsShape(kept);
    JoinKeyShape(ws);
    var joined := JoinWith(ws, '_');
    PrefixKeyShape(joined, if |joined| < MaxKeyLength then |joined| else MaxKeyLength);
    NoWordsIff(english);
  }

  /** The sentence gives no word exactly when it holds no letter or digit. */
  lemma NoWordsIff(english: string)
    ensures Words(KeepAlnumOrSpace(Lower(english))) == [] <==> !HasAlnum(english)
  {
    var lowered := Lower(english);
    var kept := KeepAlnumOrSpace(lowered);
    WordsEmpty(kept);
    LowerHasAlnum(english);
    AlnumOrSpaceHasAlnum(kept);
  }

  lemma LowerHasAlnum(s: string)
    ensures HasAlnum(Lower(s)) <==> HasAlnum(s)
  {
    if HasAlnum(s) {
      var i :| 0 <= i < |s| && IsAlnum(s[i]);
      assert IsAlnum(Lower(s)[i]);
    }
  }

  lemma AlnumOrSpaceHasAlnum(s: string)
    requires AlnumOrSpaceOnly(s)
    ensures HasAlnum(s) <==> !(forall i :: 0 <= i < |s| ==> IsSpace(s[i]))
  {
    if !(forall i :: 0 <= i < |s| ==> IsSpace(s[i])) {
      var i :| 0 <= i < |s| && !IsSpace(s[i]);
      assert IsAlnum(s[i]);
    }
  }

  // ---------------------------------------------------------------------------
  // Code-fence stripping
  // ---------------------------------------------------------------------------

  const Fence: string := "```"

  /** The leftmost occurrence of the pattern at or after `from`, or the length of s when there is none. */
  function FirstOccurrence(s: string, pattern: string, from: nat): (i: nat)
    requires pattern != [] && from <= |s|
    decreases |s| - from
    ensures from <= i <= |s|
    ensures i == |s| || OccursAt(s, pattern, i)
    ensures forall j :: from <= j < i ==> !OccursAt(s, pattern, j)
  {
    if from + |pattern| > |s| then |s|
    else if OccursAt(s, pattern, from) then from
    else FirstOccurrence(s, pattern, from + 1)
  }

  /** `s.split(pattern)[0]`: the part of s before the first occurrence of the pattern, or all of s. */
  function Before(s: string, pattern: string): (r: string)
    requires pattern != []
  {
    s[..FirstOccurrence(s, pattern, 0)]
  }

  /**
   * The reply text JSON is read from: when the trimmed reply starts with a fence, the
   * text between it and the next fence (or the end), less a leading "json"; trimmed.
   */
  function Unfence(reply: string): string {
    var t := Strip(reply);
    if StartsWith(t, Fence) then
      Strip(DropJsonTag(Before(t[|Fence|..], Fence)))
    else Strip(t)
  }

  /** The fenced text less its "json" language tag, when it has one. */
  function DropJsonTag(inner: string): string {
    if StartsWith(inner, "json") then inner[4..] else inner
  }

  /** A reply without a fence is only trimmed. */
  lemma UnfencedReplyKept(reply: string)
    requires !StartsWith(Strip(reply), Fence)
    ensures Unfence(reply) == Strip(reply)
  {
    StripNoEdgeSpace(Strip(reply));
  }

  /**
   * A body without a fence inside, not ending in a backquote, is recovered trimmed from
   * its fenced form, and exactly when it has no whitespace at its ends; whatever follows
   * the closing fence is ignored.
   */
  lemma FenceRoundTrip(body: string, tag: string, tail: string)
    requires tag == "" || tag == "json"
    requires !Occurs(body, Fence) && (body == [] || body[|body| - 1] != '`')
    requires tag == "" ==> !StartsWith(body, "json")
    ensures Unfence(Fence + tag + body + Fence + tail) == Strip(body)
    ensures NoEdgeSpace(body) ==> Unfence(Fence + tag + body + Fence + tail) == body
  {
    var rest := tag + body + Fence + RStrip(tail);
    FencedParts(tag, body, tail);
    FenceSlice(tag, body, RStrip(tail));
    OpensWithFence(Fence + tag + body + Fence + tail, Fence + tag + body + Fence + RStrip(tail), rest);
    ClosingFence(tag, body, RStrip(tail));
    TagDropped(tag, body);
    if NoEdgeSpace(body) {
      StripNoEdgeSpace(body);
    }
  }

  /** A reply that trims to a fence and the rest is read from the rest. */
  lemma OpensWithFence(reply: string, u: string, rest: string)
    requires Strip(reply) == u && StartsWith(u, Fence) && u[|Fence|..] == rest
    ensures Unfence(reply) == Strip(DropJsonTag(Before(rest, Fence)))
  {
  }

  /** Trimming the fenced reply only cuts whitespace off the end of the text after the closing fence. */
  lemma FencedParts(tag: string, body: string, tail: string)
    ensures Strip(Fence + tag + body + Fence + tail) == Fence + tag + body + Fence + RStrip(tail)
  {
    var p := Fence + tag + body + Fence;
    var t := p + tail;
    assert t == Fence + tag + body + Fence + tail;
    assert t[0] == '`' && p[|p| - 1] == '`';
    assert LStrip(t) == t;
    RStripAfter(p, tail);
  }

  /** The fenced text opens with the fence and the rest follows it. */
  lemma FenceSlice(tag: string, body: string, tail: string)
    ensures StartsWith(Fence + tag + body + Fence + tail, Fence)
    ensures (Fence + tag + body + Fence + tail)[|Fence|..] == tag + body + Fence + tail
  {
  }

  /** Trailing whitespace is cut from the second string only, when the first ends in another character. */
  lemma {:induction false} RStripAfter(p: string, q: string)
    requires p != [] && !IsSpace(p[|p| - 1])
    ensures RStrip(p + q) == p + RStrip(q)
    decreases |q|
  {
    var s := p + q;
    if q == [] {
      assert s == p;
    } else {
      assert s[|s| - 1] == q[|q| - 1];
      if IsSpace(q[|q| - 1]) {
        assert s[..|s| - 1] == p + q[..|q| - 1];
        RStripAfter(p, q[..|q| - 1]);
      }
    }
  }

  /** A reply with chatter after its fenced JSON: the chatter is ignored. */
  lemma TrailingProseIgnored()
    ensures Unfence("```json\n[]\n```\nHope this helps!") == "[]"
  {
    ExampleReplyParts();
    ExampleBody();
    FenceRoundTrip("\n[]\n", "json", "\nHope this helps!");
  }

  lemma ExampleReplyParts()
    ensures "```json\n[]\n```\nHope this helps!" == Fence + "json" + "\n[]\n" + Fence + "\nHope this helps!"
  {
  }

  lemma ExampleBody()
    ensures !Occurs("\n[]\n", Fence) && Strip("\n[]\n") == "[]"
  {
    ExampleNoFence();
    var b := "\n[]\n";
    var c := "[]\n";
    assert IsSpace(b[0]) && b[1..] == c;
    assert LStrip(c) == c;
    assert LStrip(b) == c;
    assert IsSpace(c[2]) && c[..2] == "[]";
    assert RStrip("[]") == "[]";
    assert RStrip(c) == "[]";
  }

  lemma ExampleNoFence()
    ensures !Occurs("\n[]\n", Fence)
  {
    var b := "\n[]\n";
    forall i | 0 <= i && i + |Fence| <= |b| ensures !OccursAt(b, Fence, i) {
      assert b[i] != '`';
    }
  }

  /** The "json" language tag, and only it, is dropped from the fenced text. */
  lemma TagDropped(tag: string, body: string)
    requires tag == "" || tag == "json"
    requires tag == "" ==> !StartsWith(body, "json")
    ensures DropJsonTag(tag + body) == body
  {
    var inner := tag + body;
    if tag == "json" {
      assert inner[..4] == "json" && inner[4..] == body;
    } else {
      assert inner == body;
    }
  }

  /** The text after the opening fence runs up to the closing fence. */
  lemma ClosingFence(tag: string, body: string, tail: string)
    requires tag == "" || tag == "json"
    requires !Occurs(body, Fence) && (body == [] || body[|body| - 1] != '`')
    ensures Before(tag + body + Fence + tail, Fence) == tag + body
  {
    var u := tag + body + Fence + tail;
    var n := |tag| + |body|;
    var f := FirstOccurrence(u, Fence, 0);
    assert OccursAt(u, Fence, n) by {
      assert u[n..n + |Fence|] == Fence;
    }
    forall i | 0 <= i < n ensures !OccursAt(u, Fence, i) {
      FenceNotBefore(tag, body, tail, i);
    }
    assert f == n;
    assert u[..n] == tag + body;
  }

  /** No fence starts inside the tag and the body: the first one is the closing fence. */
  lemma FenceNotBefore(tag: string, body: string, tail: string, i: nat)
    requires tag == "" || tag == "json"
    requires !Occurs(body, Fence) && (body == [] || body[|body| - 1] != '`')
    requires i < |tag| + |body|
    ensures !OccursAt(tag + body + Fence + tail, Fence, i)
  {
    var u := tag + body + Fence + tail;
    var n := |tag| + |body|;
    if i < |tag| {
      assert u[i] == tag[i] && tag[i] != '`';
      assert u[i..i + |Fence|][0] == u[i];
    } else if i + |Fence| <= n {
      assert !OccursAt(body, Fence, i - |tag|);
      assert u[i..i + |Fence|] == body[i - |tag|..i - |tag| + |Fence|];
    } else {
      assert u[n - 1] != '`' by {
        assert u[n - 1] == body[|body| - 1];
      }
      assert u[i..i + |Fence|][n - 1 - i] == u[n - 1];
    }
  }

  // ---------------------------------------------------------------------------
  // The sentence database
  // ---------------------------------------------------------------------------

  /** One pair as the model returns it. */
  datatype SentencePair = SentencePair(german: string, english: string)

  /** One database record; the flag is absent in a record the file lacks it for. */
  datatype SentenceRecord = SentenceRecord(german: string, english: string, audioGenerated: Option<bool>)

  /** The key and the fresh record a pair is filed as. */
  function Entry(pair: SentencePair): (string, SentenceRecord) {
    (DeriveKey(pair.english), SentenceRecord(pair.german, pair.english, Some(false)))
  }

  /** The assignments a batch of pairs makes, in order. */
  function Entries(pairs: seq<SentencePair>): (es: seq<(string, SentenceRecord)>)
    ensures |es| == |pairs|
  {
    MapSeq(pairs, Entry)
  }

  /** The i-th assignment of a batch files the i-th pair. */
  lemma EntriesAt(pairs: seq<SentencePair>, i: nat)
    requires i < |pairs|
    ensures Entries(pairs)[i] == Entry(pairs[i])
  {
    MapSeqAt(pairs, Entry, i);
  }

  /** `not v.get('audio_generated', False)`: a record whose audio is still to be made. */
  predicate IsPending(r: SentenceRecord): (pending: bool)
    ensures pending <==> r.audioGenerated in {None, Some(false)}
    ensures pending <==> r.audioGenerated != Some(true)
  {
    match r.audioGenerated
    case None => true
    case Some(generated) => !generated
  }

  /** The keys `create_all_audio` works through. */
  function PendingKeys(sentences: map<string, SentenceRecord>): (ks: set<string>)
    ensures forall k :: k in ks <==> k in sentences && IsPending(sentences[k])
  {
    set k | k in sentences && IsPending(sentences[k])
  }

  /** The record once its audio exists. */
  function MarkGenerated(r: SentenceRecord): SentenceRecord {
    r.(audioGenerated := Some(true))
  }

  class SentenceDatabase {
    var sentences: map<string, SentenceRecord>

    /** The database as loaded from its file (an empty one when there is no file yet). */
    constructor (loaded: map<string, SentenceRecord>)
      ensures sentences == loaded
    {
      sentences := loaded;
    }

    /** `generate_sentences` once the reply is parsed: each pair is filed, later ones overwriting. */
    method GenerateSentences(pairs: seq<SentencePair>)
      modifies this
      ensures sentences == Assign(old(sentences), Entries(pairs))
    {
      for i := 0 to |pairs|
        invariant sentences == Assign(old(sentences), Entries(pairs[..i]))
      {
        var entry := Entry(pairs[i]);
        BatchStep(old(sentences), pairs, i);
        sentences := sentences[entry.0 := entry.1];
      }
      assert pairs[..|pairs|] == pairs;
    }

    /**
     * `create_audio`: false and nothing changed for an unknown key; otherwise the audio
     * is made (outside the model) and the record flagged.
     */
    method CreateAudio(key: string) returns (ok: bool)
      modifies this
      ensures ok <==> key in old(sentences)
      ensures !ok ==> sentences == old(sentences)
      ensures ok ==> sentences == old(sentences)[key := MarkGenerated(old(sentences)[key])]
    {
      if key !in sentences {
        return false;
      }
      sentences := sentences[key := MarkGenerated(sentences[key])];
      return true;
    }

    /** `create_all_audio`: every pending record gets its audio; the others stay as they are. */
    method CreateAllAudio()
      modifies this
      ensures sentences == map k | k in old(sentences) :: MarkGenerated(old(sentences)[k])
    {
      var pending := PendingKeys(sentences);
      ghost var start := sentences;
      while pending != {}
        invariant pending <= PendingKeys(start)
        invariant sentences.Keys == start.Keys
        invariant forall k :: k in sentences ==>
          sentences[k] == if k in pending then start[k] else MarkGenerated(start[k])
        decreases |pending|
      {
        var key :| key in pending;
        var ok := CreateAudio(key);
        pending := pending - {key};
      }
    }
  }

  /** Filing one more pair of a batch is one more dictionary assignment. */
  lemma BatchStep(m: map<string, SentenceRecord>, pairs: seq<SentencePair>, i: nat)
    requires i < |pairs|
    ensures Assign(m, Entries(pairs[..i + 1]))
         == Assign(m, Entries(pairs[..i]))[Entry(pairs[i]).0 := Entry(pairs[i]).1]
  {
    var entry := Entry(pairs[i]);
    AssignAppend(m, Entries(pairs[..i]), [entry]);
    assert pairs[..i + 1][..i] == pairs[..i];
    assert Entries(pairs[..i + 1]) == Entries(pairs[..i]) + [entry];
  }

  /** After a batch, each pair's key holds that pair's record unless a later pair of the batch has the same key. */
  lemma BatchLastPairWins(before: map<string, SentenceRecord>, pairs: seq<SentencePair>, i: nat)
    requires i < |pairs|
    requires forall j :: i < j < |pairs| ==> DeriveKey(pairs[j].english) != DeriveKey(pairs[i].english)
    ensures DeriveKey(pairs[i].english) in Assign(before, Entries(pairs))
    ensures Assign(before, Entries(pairs))[DeriveKey(pairs[i].english)]
         == SentenceRecord(pairs[i].german, pairs[i].english, Some(false))
  {
    var es := Entries(pairs);
    forall j | i <= j < |pairs| ensures es[j] == Entry(pairs[j]) {
      EntriesAt(pairs, j);
    }
    AssignLastWins(before, es, i);
  }

  /** A batch leaves every key none of its pairs derives untouched. */
  lemma BatchKeepsOtherKeys(before: map<string, SentenceRecord>, pairs: seq<SentencePair>, k: string)
    requires k in before
    requires forall j :: 0 <= j < |pairs| ==> DeriveKey(pairs[j].english) != k
    ensures k in Assign(before, Entries(pairs)) && Assign(before, Entries(pairs))[k] == before[k]
  {
    var es := Entries(pairs);
    forall j | 0 <= j < |pairs| ensures es[j] == Entry(pairs[j]) {
      EntriesAt(pairs, j);
    }
    AssignUntouched(before, es, k);
  }

  /** Every record of a new batch is pending. */
  lemma BatchIsPending(before: map<string, SentenceRecord>, pairs: seq<SentencePair>, i: nat)
    requires i < |pairs|
    ensures DeriveKey(pairs[i].english) in PendingKeys(Assign(before, Entries(pairs)))
  {
    var es := Entries(pairs);
    var k := DeriveKey(pairs[i].english);
    EntriesAt(pairs, i);
    var last := LastIndexOf(es, k, i);
    EntriesAt(pairs, last);
    AssignLastWins(before, es, last);
  }

  /** The last index at or after i whose key is k. */
  function LastIndexOf(es: seq<(string, SentenceRecord)>, k: string, i: nat): (j: nat)
    requires i < |es| && es[i].0 == k
    decreases |es| - i
    ensures i <= j < |es| && es[j].0 == k
    ensures forall m :: j < m < |es| ==> es[m].0 != k
  {
    if exists m :: i < m < |es| && es[m].0 == k then
      var m :| i < m < |es| && es[m].0 == k;
      LastIndexOf(es, k, m)
    else i
  }

  /** Flagging a record takes exactly its key out of the pending keys. */
  lemma MarkLeavesPending(sentences: map<string, SentenceRecord>, key: string)
    requires key in sentences
    ensures PendingKeys(sentences[key := MarkGenerated(sentences[key])]) == PendingKeys(sentences) - {key}
  {
  }

  /** Once every record is flagged nothing is pending, and no sentence text changed. */
  lemma AllGeneratedNothingPending(sentences: map<string, SentenceRecord>)
    ensures PendingKeys(map k | k in sentences :: MarkGenerated(sentences[k])) == {}
    ensures forall k :: k in sentences ==>
      var r := (map k | k in sentences :: MarkGenerated(sentences[k]))[k];
      r.german == sentences[k].german && r.english == sentences[k].english
  {
  }
}
