/**
 * The pure part of `generateGeminiPrompt` in the SiliconFlow/Gemini plugin:
 * joining the answer text of the first candidate and turning its grounding
 * chunks into a duplicate-free list of `{title, url}` search sources. The
 * HTTP call and the JSON decoding are outside the model; the decoded
 * response is the input.
 */
module SfSources {
  import opened Wrappers
  import opened JsStrings

  /** The `web` part of a grounding chunk. */
  datatype Web = Web(title: string, uri: string)

  /** A grounding chunk; chunks of other kinds have no `web`. */
  datatype GroundingChunk = GroundingChunk(web: Option<Web>)

  /** One entry of the `sources` list the plugin replies with. */
  datatype Source = Source(title: string, url: string)

  /** A content part; `text` is absent in non-text parts. */
  datatype Part = Part(text: Option<string>)

  /** The first candidate of the decoded response: its `content.parts` and its
      `groundingMetadata.groundingChunks`, each absent when the response lacks it. */
  datatype Candidate = Candidate(parts: Option<seq<Part>>, groundingChunks: Option<seq<GroundingChunk>>)

  /** What `generateGeminiPrompt` returns. */
  datatype Reply = Reply(answer: string, sources: seq<Source>)

  const RedirectPrefix: string := "https://vertexaisearch.cloud.google.com/grounding-api-redirect"
  const RedirectReplacement: string := "https://miao.news"
  const ErrorAnswer: string := "[sf插件]gg调用错误"

  /** `chunks.filter(chunk => chunk.web)`, projected to the `web` parts. */
  function WebsOf(chunks: seq<GroundingChunk>): (webs: seq<Web>)
    ensures |webs| <= |chunks|
    ensures forall w :: w in webs <==> exists c :: c in chunks && c.web == Some(w)
  {
    if chunks == [] then []
    else (if chunks[0].web.Some? then [chunks[0].web.value] else []) + WebsOf(chunks[1..])
  }

  /** Filtering commutes with concatenation, so the kept chunks stay in their
      relative order. */
  lemma {:induction false} WebsOfAppend(a: seq<GroundingChunk>, b: seq<GroundingChunk>)
    ensures WebsOf(a + b) == WebsOf(a) + WebsOf(b)
  {
    if a != [] {
      assert (a + b)[0] == a[0] && (a + b)[1..] == a[1..] + b;
      WebsOfAppend(a[1..], b);
    } else {
      assert a + b == b;
    }
  }

  /** The `{title, url}` entry of a web chunk: the redirect prefix of the uri,
      where it occurs, is replaced once by the short host. */
  function ToSource(w: Web): (s: Source)
    ensures s.title == w.title
    ensures |s.url| == |w.uri| || |s.url| == |w.uri| - |RedirectPrefix| + |RedirectReplacement|
  {
    Source(w.title, ReplaceFirst(w.uri, RedirectPrefix, RedirectReplacement))
  }

  /** A uri that starts with the redirect prefix is rewritten to the short host
      followed by the rest of the uri; a uri without it keeps its value. */
  lemma ToSourceUrl(w: Web)
    ensures OccursAt(w.uri, RedirectPrefix, 0) ==>
              ToSource(w).url == RedirectReplacement + w.uri[|RedirectPrefix|..]
    ensures !Includes(w.uri, RedirectPrefix) ==> ToSource(w).url == w.uri
    ensures ToSource(w).title == w.title
  {
    if OccursAt(w.uri, RedirectPrefix, 0) {
      ReplaceFirstPresent(w.uri, RedirectPrefix, RedirectReplacement, 0);
    }
    if !Includes(w.uri, RedirectPrefix) {
      ReplaceFirstAbsent(w.uri, RedirectPrefix, RedirectReplacement);
    }
  }

  function ToSources(webs: seq<Web>): (s: seq<Source>)
    ensures |s| == |webs| && forall i :: 0 <= i < |s| ==> s[i] == ToSource(webs[i])
  {
    if webs == [] then [] else [ToSource(webs[0])] + ToSources(webs[1..])
  }

  /** `a.findIndex(t => t.title === v.title && t.url === v.url)`: the first
      position holding `v`, or -1 when there is none. */
  function FindIndex<T(==)>(a: seq<T>, v: T): (i: int)
    ensures -1 <= i < |a|
    ensures i >= 0 ==> a[i] == v && v !in a[..i]
    ensures i == -1 <==> v !in a
  {
    if a == [] then -1
    else if a[0] == v then 0
    else
      var j := FindIndex(a[1..], v);
      if j == -1 then -1
      else
        assert a[..j + 1] == [a[0]] + a[1..][..j];
        j + 1
  }

  /** `a.filter((v, i, a) => a.findIndex(...) === i)` restricted to the first
      `n` positions: a position is kept when it is the first to hold its entry. */
  function KeepFirst<T(==)>(a: seq<T>, n: nat): (r: seq<T>)
    requires n <= |a|
    ensures |r| <= n
  {
    if n == 0 then []
    else KeepFirst(a, n - 1) + (if FindIndex(a, a[n - 1]) == n - 1 then [a[n - 1]] else [])
  }

  /** The dedup step of the source chain. */
  function Dedup<T(==,!new)>(a: seq<T>): (r: seq<T>)
    ensures NoDuplicates(r)
    ensures forall v :: v in r <==> v in a
  {
    KeepFirstShape(a, |a|);
    assert a[..|a|] == a;
    KeepFirst(a, |a|)
  }

  predicate NoDuplicates<T(==)>(s: seq<T>)
  {
    forall i, j :: 0 <= i < j < |s| ==> s[i] != s[j]
  }

  /** The first occurrence of an entry does not move when the list grows. */
  lemma FindIndexPrefix<T>(a: seq<T>, n: nat, v: T)
    requires n <= |a| && v in a[..n]
    ensures FindIndex(a[..n], v) == FindIndex(a, v)
  {
    var i, i' := FindIndex(a, v), FindIndex(a[..n], v);
    assert a[..n][..i'] == a[..i'];
  }

  /** Position `n - 1` is kept exactly when it holds the first occurrence of its entry. */
  lemma KeepFirstLast<T>(a: seq<T>, n: nat)
    requires 0 < n <= |a|
    ensures FindIndex(a, a[n - 1]) == n - 1 ==> KeepFirst(a, n) == KeepFirst(a, n - 1) + [a[n - 1]]
    ensures FindIndex(a, a[n - 1]) != n - 1 ==> KeepFirst(a, n) == KeepFirst(a, n - 1)
  {
  }

  /** Every entry kept from the first `n` positions first occurs below `n`. */
  lemma {:induction false} KeepFirstBound<T>(a: seq<T>, n: nat, i: nat)
    requires n <= |a| && i < |KeepFirst(a, n)|
    ensures FindIndex(a, KeepFirst(a, n)[i]) < n
  {
    if n > 0 {
      KeepFirstLast(a, n);
      var prev := KeepFirst(a, n - 1);
      if i < |prev| {
        KeepFirstBound(a, n - 1, i);
        assert KeepFirst(a, n)[i] == prev[i];
      }
    }
  }

  /** The entries kept from the first `n` positions come in the order of
      their first occurrences. */
  lemma {:induction false} KeepFirstOrdered<T>(a: seq<T>, n: nat, i: nat, j: nat)
    requires n <= |a| && i < j < |KeepFirst(a, n)|
    ensures FindIndex(a, KeepFirst(a, n)[i]) < FindIndex(a, KeepFirst(a, n)[j])
  {
    if n > 0 {
      KeepFirstLast(a, n);
      var prev, r := KeepFirst(a, n - 1), KeepFirst(a, n);
      assert r[i] == prev[i];
      var fi, fj := FindIndex(a, r[i]), FindIndex(a, r[j]);
      if j < |prev| {
        KeepFirstOrdered(a, n - 1, i, j);
        assert r[j] == prev[j];
        assert fi < fj;
      } else {
        KeepFirstBound(a, n - 1, i);
        assert r[j] == a[n - 1];
        assert fi < n - 1 == fj;
      }
    }
  }

  /** The first occurrence of the entry at `k` lies at or before `k`. */
  lemma FindIndexAtMost<T>(a: seq<T>, k: nat)
    requires k < |a|
    ensures 0 <= FindIndex(a, a[k]) <= k
  {
    assert a[..k + 1][k] == a[k];
    FindIndexPrefix(a, k + 1, a[k]);
  }

  /** Growing a prefix by one position adds exactly that position's entry. */
  lemma PrefixMember<T>(a: seq<T>, n: nat, v: T)
    requires 0 < n <= |a|
    ensures v in a[..n] <==> v in a[..n - 1] || v == a[n - 1]
  {
    assert a[..n] == a[..n - 1] + [a[n - 1]];
  }

  /** An entry is kept from the first `n` positions exactly when it is among them. */
  lemma {:induction false} KeepFirstMember<T>(a: seq<T>, n: nat, v: T)
    requires n <= |a|
    ensures v in KeepFirst(a, n) <==> v in a[..n]
  {
    if n > 0 {
      KeepFirstMember(a, n - 1, v);
      KeepFirstLast(a, n);
      PrefixMember(a, n, v);
      if FindIndex(a, a[n - 1]) != n - 1 {
        FindIndexAtMost(a, n - 1);
        PrefixMember(a, n - 1, a[n - 1]);
        var f := FindIndex(a, a[n - 1]);
        assert a[..n - 1][f] == a[n - 1];
      }
    }
  }

  /** What the dedup keeps of the first `n` positions: every entry among them
      exactly once, ordered by where it first occurs. */
  lemma KeepFirstShape<T>(a: seq<T>, n: nat)
    requires n <= |a|
    ensures NoDuplicates(KeepFirst(a, n))
    ensures forall v :: v in KeepFirst(a, n) <==> v in a[..n]
    ensures forall i, j :: 0 <= i < j < |KeepFirst(a, n)| ==>
              FindIndex(a, KeepFirst(a, n)[i]) < FindIndex(a, KeepFirst(a, n)[j])
    ensures forall i :: 0 <= i < |KeepFirst(a, n)| ==> FindIndex(a, KeepFirst(a, n)[i]) < n
  {
    var r := KeepFirst(a, n);
    forall i, j | 0 <= i < j < |r|
      ensures FindIndex(a, r[i]) < FindIndex(a, r[j])
    {
      KeepFirstOrdered(a, n, i, j);
    }
    forall i | 0 <= i < |r|
      ensures FindIndex(a, r[i]) < n
    {
      KeepFirstBound(a, n, i);
    }
    forall v
      ensures v in r <==> v in a[..n]
    {
      KeepFirstMember(a, n, v);
    }
  }

  /** The source list: web chunks only, mapped to `{title, url}`, first
      occurrence of each pair kept. */
  function ExtractSources(chunks: Option<seq<GroundingChunk>>): (r: seq<Source>)
    ensures chunks.None? ==> r == []
    ensures NoDuplicates(r)
  {
    if chunks.None? then [] else Dedup(ToSources(WebsOf(chunks.value)))
  }

  /** The source list has no two equal `(title, url)` pairs; its entries are
      exactly the entries of the web chunks; and they are in the order in
      which each first occurs among the mapped web chunks. */
  lemma ExtractSourcesShape(chunks: seq<GroundingChunk>)
    ensures var r := ExtractSources(Some(chunks));
      && NoDuplicates(r)
      && (forall s :: s in r <==> exists c :: c in chunks && c.web.Some? && ToSource(c.web.value) == s)
      && (forall i, j :: 0 <= i < j < |r| ==>
            FindIndex(ToSources(WebsOf(chunks)), r[i]) < FindIndex(ToSources(WebsOf(chunks)), r[j]))
  {
    var mapped := ToSources(WebsOf(chunks));
    KeepFirstShape(mapped, |mapped|);
    assert mapped[..|mapped|] == mapped;
    MappedMembers(chunks);
  }

  /** The mapped list holds exactly the entries of the web chunks. */
  lemma MappedMembers(chunks: seq<GroundingChunk>)
    ensures forall s :: s in ToSources(WebsOf(chunks)) <==>
              exists c :: c in chunks && c.web.Some? && ToSource(c.web.value) == s
  {
    var webs := WebsOf(chunks);
    var mapped := ToSources(webs);
    forall s | s in mapped ensures exists c :: c in chunks && c.web.Some? && ToSource(c.web.value) == s {
      var k :| 0 <= k < |mapped| && mapped[k] == s;
      assert webs[k] in webs;
    }
    forall c | c in chunks && c.web.Some? ensures ToSource(c.web.value) in mapped {
      var w := c.web.value;
      assert w in webs;
      var k :| 0 <= k < |webs| && webs[k] == w;
      assert mapped[k] == ToSource(w);
    }
  }

  /** `parts.map(part => part.text).join('')`; an absent text joins as ''. */
  function JoinTexts(parts: seq<Part>): (answer: string)
    ensures |parts| == 1 ==> answer == if parts[0].text.Some? then parts[0].text.value else ""
    ensures (forall i :: 0 <= i < |parts| ==> parts[i].text.None?) ==> answer == ""
  {
    if parts == [] then [] else (if parts[0].text.Some? then parts[0].text.value else []) + JoinTexts(parts[1..])
  }

  lemma {:induction false} JoinTextsAppend(a: seq<Part>, b: seq<Part>)
    ensures JoinTexts(a + b) == JoinTexts(a) + JoinTexts(b)
  {
    if a != [] {
      assert (a + b)[0] == a[0] && (a + b)[1..] == a[1..] + b;
      JoinTextsAppend(a[1..], b);
    } else {
      assert a + b == b;
    }
  }

  /** The reply built from a decoded response whose `candidates` are given:
      the error answer when the first candidate has no parts, otherwise the
      joined text and its sources. */
  function GeminiReply(candidates: seq<Candidate>): (r: Reply)
    ensures r.sources != [] ==> |candidates| > 0 && candidates[0].parts.Some?
    ensures NoDuplicates(r.sources)
  {
    if |candidates| > 0 && candidates[0].parts.Some? then
      Reply(JoinTexts(candidates[0].parts.value), ExtractSources(candidates[0].groundingChunks))
    else Reply(ErrorAnswer, [])
  }
}
