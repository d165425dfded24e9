/** Signing the file links inside a segment's text by running-offset replacement
    (models/dataset.py, get_sign_content). */
module Splice {
  import opened Results

  const FILES := "/files/"
  const IMAGE := "/image-preview"
  const FILE := "/file-preview"

  datatype Span = Span(start: nat, end: nat)

  /** The text between start and end is to become url. */
  datatype Edit = Edit(start: nat, end: nat, url: string)

  // ---- The two patterns, /files/([a-f0-9\-]+)/image-preview and .../file-preview ----

  predicate IsIdChar(c: char) {
    'a' <= c <= 'f' || '0' <= c <= '9' || c == '-'
  }

  predicate StartsAt(text: string, i: nat, s: string) {
    i + |s| <= |text| && text[i..i + |s|] == s
  }

  /** The end of the run of identifier characters from i on. */
  function IdEnd(text: string, i: nat): (j: nat)
    requires i <= |text|
    ensures i <= j <= |text| && (forall k :: i <= k < j ==> IsIdChar(text[k]))
    ensures j < |text| ==> !IsIdChar(text[j])
    decreases |text| - i
  {
    if i < |text| && IsIdChar(text[i]) then IdEnd(text, i + 1) else i
  }

  /** The end of the link of this kind that starts at i, if one does. */
  function LinkEnd(text: string, i: nat, kind: string): (r: Option<nat>)
    requires i <= |text|
    ensures r.Some? ==> i + |FILES| < r.value - |kind| && r.value <= |text|
  {
    if !StartsAt(text, i, FILES) then None
    else
      var j := IdEnd(text, i + |FILES|);
      if j > i + |FILES| && StartsAt(text, j, kind) then Some(j + |kind|) else None
  }

  /** re.finditer from position i on: the leftmost match, then from its end. */
  function Matches(text: string, kind: string, i: nat): (r: seq<Span>)
    requires i <= |text|
    ensures forall m :: m in r ==> i <= m.start < m.end <= |text| && LinkEnd(text, m.start, kind) == Some(m.end)
    ensures forall a, b :: 0 <= a < b < |r| ==> r[a].end <= r[b].start
    decreases |text| - i
  {
    if i == |text| then []
    else match LinkEnd(text, i, kind)
      case Some(end) => [Span(i, end)] + Matches(text, kind, end)
      case None => Matches(text, kind, i + 1)
  }

  /** The signed form of a match; the parameters depend on the link, the time and a nonce. */
  function Signed(text: string, m: Span, params: Span -> string): Edit
    requires m.start <= m.end <= |text|
  {
    Edit(m.start, m.end, text[m.start..m.end] + "?" + params(m))
  }

  function SignedAll(text: string, ms: seq<Span>, params: Span -> string): (r: seq<Edit>)
    requires forall m :: m in ms ==> m.start <= m.end <= |text|
    ensures |r| == |ms| && forall i :: 0 <= i < |ms| ==> r[i] == Signed(text, ms[i], params)
  {
    seq(|ms|, i requires 0 <= i < |ms| => Signed(text, ms[i], params))
  }

  function Images(text: string, params: Span -> string): seq<Edit> {
    SignedAll(text, Matches(text, IMAGE, 0), params)
  }

  function Files(text: string, params: Span -> string): seq<Edit> {
    SignedAll(text, Matches(text, FILE, 0), params)
  }

  // ---- Replaying edits with an offset, and substituting them all at once ----

  /** An edit that keeps its span and appends a question mark and more. */
  predicate Appends(text: string, e: Edit) {
    && e.start < e.end <= |text| && |e.url| > e.end - e.start
    && e.url[..e.end - e.start] == text[e.start..e.end] && e.url[e.end - e.start] == '?'
  }

  predicate AllAppend(text: string, edits: seq<Edit>) {
    forall k :: 0 <= k < |edits| ==> Appends(text, edits[k])
  }

  predicate Ordered(edits: seq<Edit>) {
    forall i, j :: 0 <= i < j < |edits| ==> edits[i].end <= edits[j].start
  }

  function Growth(e: Edit): int {
    |e.url| - (e.end - e.start)
  }

  predicate InRange(text: string, e: Edit, offset: nat) {
    e.start <= e.end && e.end + offset <= |text| && Growth(e) >= 0
  }

  predicate Fits(text: string, edits: seq<Edit>, offset: nat) {
    forall k :: 0 <= k < |edits| ==> InRange(text, edits[k], offset)
  }

  /** The replacement loop, in whatever order the edits come. */
  function Replay(text: string, edits: seq<Edit>, offset: nat): string
    requires Fits(text, edits, offset)
    decreases |edits|
  {
    if edits == [] then text
    else
      var e := edits[0];
      Replay(text[..e.start + offset] + e.url + text[e.end + offset..], edits[1..], offset + Growth(e))
  }

  function At(edits: seq<Edit>, i: nat): (r: Option<Edit>)
    ensures r.Some? ==> r.value in edits && r.value.start == i
    ensures r.None? ==> forall e :: e in edits ==> e.start != i
  {
    if edits == [] then None
    else if edits[0].start == i then Some(edits[0])
    else At(edits[1..], i)
  }

  /** What is meant: reading the original text from i on, each span that starts an edit gives
      way to its replacement. The order of the edits plays no role. */
  function Substitute(text: string, edits: seq<Edit>, i: nat): string
    requires i <= |text| && AllAppend(text, edits)
    decreases |text| - i
  {
    if i == |text| then []
    else match At(edits, i)
      case Some(e) => e.url + Substitute(text, edits, e.end)
      case None => [text[i]] + Substitute(text, edits, i + 1)
  }

  // ---- Sorted edits ----

  lemma Reassociate(a: string, b: string, c: string)
    ensures a + (b + c) == (a + b) + c
  {
  }

  lemma SubstituteAt(text: string, edits: seq<Edit>, i: nat)
    requires i < |text| && AllAppend(text, edits)
    ensures At(edits, i).Some? ==> i < At(edits, i).value.end <= |text|
    ensures Substitute(text, edits, i) == match At(edits, i)
                                          case Some(e) => e.url + Substitute(text, edits, e.end)
                                          case None => [text[i]] + Substitute(text, edits, i + 1)
  {
  }

  lemma {:induction false} NoEditsChangeNothing(text: string, edits: seq<Edit>, i: nat, j: nat)
    requires i <= j <= |text| && AllAppend(text, edits)
    requires forall e :: e in edits ==> !(i <= e.start < j)
    ensures Substitute(text, edits, i) == text[i..j] + Substitute(text, edits, j)
    decreases j - i
  {
    hide Substitute;
    hide AllAppend;
    if i < j {
      SubstituteAt(text, edits, i);
      assert At(edits, i).None?;
      NoEditsChangeNothing(text, edits, i + 1, j);
      assert text[i..j] + Substitute(text, edits, j) == [text[i]] + (text[i + 1..j] + Substitute(text, edits, j));
    }
  }

  /** Only the edits from i on matter from i on. */
  lemma {:induction false} LaterEditsSuffice(text: string, first: Edit, rest: seq<Edit>, i: nat)
    requires i <= |text| && AllAppend(text, [first] + rest) && first.start < i
    ensures AllAppend(text, rest) && Substitute(text, [first] + rest, i) == Substitute(text, rest, i)
    decreases |text| - i
  {
    assert ([first] + rest)[1..] == rest;
    assert forall k :: 0 <= k < |rest| ==> rest[k] == ([first] + rest)[k + 1];
    if i < |text| {
      assert At([first] + rest, i) == At(rest, i);
      LaterEditsSuffice(text, first, rest, if At(rest, i).Some? then At(rest, i).value.end else i + 1);
    }
  }

  function TotalGrowth(edits: seq<Edit>): int {
    if edits == [] then 0 else Growth(edits[0]) + TotalGrowth(edits[1..])
  }

  /** The first of ordered edits, peeled off. */
  lemma SubstituteStep(text: string, edits: seq<Edit>, p: nat)
    requires edits != [] && AllAppend(text, edits) && Ordered(edits) && p <= edits[0].start
    ensures AllAppend(text, edits[1..])
    ensures Substitute(text, edits, p)
         == text[p..edits[0].start] + edits[0].url + Substitute(text, edits[1..], edits[0].end)
  {
    var e, rest := edits[0], edits[1..];
    assert edits == [e] + rest;
    assert Appends(text, e) && AllAppend(text, rest);
    assert forall x :: x in edits ==> x.start >= e.start;
    assert At(edits, e.start) == Some(e);
    hide *;
    NoEditsChangeNothing(text, edits, p, e.start);
    SubstituteAt(text, edits, e.start);
    assert Substitute(text, edits, e.start) == e.url + Substitute(text, edits, e.end);
    LaterEditsSuffice(text, e, rest, e.end);
    Reassociate(text[p..e.start], e.url, Substitute(text, rest, e.end));
  }

  lemma NoEdits(text: string, p: nat)
    requires p <= |text|
    ensures Substitute(text, [], p) == text[p..]
  {
    NoEditsChangeNothing(text, [], p, |text|);
  }

  lemma {:induction false} SubstituteLength(text: string, edits: seq<Edit>, p: nat)
    requires AllAppend(text, edits) && Ordered(edits) && p <= |text|
    requires forall e :: e in edits ==> p <= e.start
    ensures TotalGrowth(edits) >= |edits|
    ensures |Substitute(text, edits, p)| == |text| - p + TotalGrowth(edits)
    decreases |edits|
  {
    if edits == [] {
      NoEdits(text, p);
    } else {
      SubstituteStep(text, edits, p);
      SubstituteLength(text, edits[1..], edits[0].end);
    }
  }

  lemma ReplayStep(text: string, e: Edit, rest: seq<Edit>, offset: nat)
    requires Fits(text, [e] + rest, offset)
    ensures InRange(text, e, offset)
    ensures var next := text[..e.start + offset] + e.url + text[e.end + offset..];
            && Fits(next, rest, offset + Growth(e))
            && Replay(text, [e] + rest, offset) == Replay(next, rest, offset + Growth(e))
  {
    assert ([e] + rest)[0] == e && ([e] + rest)[1..] == rest;
    var next := text[..e.start + offset] + e.url + text[e.end + offset..];
    forall k | 0 <= k < |rest|
      ensures InRange(next, rest[k], offset + Growth(e))
    {
      assert rest[k] == ([e] + rest)[k + 1];
    }
  }

  lemma AppendsFit(text: string, edits: seq<Edit>, longer: string, offset: nat)
    requires AllAppend(text, edits) && |longer| >= |text| + offset
    ensures Fits(longer, edits, offset)
  {
    assert forall k :: 0 <= k < |edits| ==> Appends(text, edits[k]);
  }

  /** Ordered edits from position p on, followed by any others: the loop substitutes the
      ordered ones at once and carries their growth on. */
  lemma {:induction false} OrderedReplayIsSubstitution(text: string, edits: seq<Edit>, others: seq<Edit>, done: string, p: nat)
    requires p <= |text| && p <= |done| && AllAppend(text, edits) && AllAppend(text, others) && Ordered(edits)
    requires forall e :: e in edits ==> p <= e.start
    ensures TotalGrowth(edits) >= 0
    ensures Fits(done + text[p..], edits + others, |done| - p)
    ensures Fits(done + Substitute(text, edits, p), others, |done| - p + TotalGrowth(edits))
    ensures Replay(done + text[p..], edits + others, |done| - p)
         == Replay(done + Substitute(text, edits, p), others, |done| - p + TotalGrowth(edits))
    decreases |edits|
  {
    hide Substitute;
    hide Replay;
    hide Fits;
    SubstituteLength(text, edits, p);
    AppendsFit(text, edits + others, done + text[p..], |done| - p);
    AppendsFit(text, others, done + Substitute(text, edits, p), |done| - p + TotalGrowth(edits));
    if edits == [] {
      NoEdits(text, p);
      assert edits + others == others;
    } else {
      OneReplayedEdit(text, edits, others, done, p);
      var next := done + text[p..edits[0].start] + edits[0].url;
      OrderedReplayIsSubstitution(text, edits[1..], others, next, edits[0].end);
      SubstituteStep(text, edits, p);
      assert next + Substitute(text, edits[1..], edits[0].end) == done + Substitute(text, edits, p);
    }
  }

  lemma OneReplayedEdit(text: string, edits: seq<Edit>, others: seq<Edit>, done: string, p: nat)
    requires edits != [] && AllAppend(text, edits) && AllAppend(text, others) && Ordered(edits)
    requires p <= edits[0].start && p <= |done|
    ensures p <= edits[0].start < edits[0].end <= |text| && Growth(edits[0]) > 0
    ensures AllAppend(text, edits[1..]) && Ordered(edits[1..])
    ensures forall x :: x in edits[1..] ==> edits[0].end <= x.start
    ensures Fits(done + text[p..], edits + others, |done| - p)
    ensures var next := done + text[p..edits[0].start] + edits[0].url;
            && |next| - edits[0].end == |done| - p + Growth(edits[0])
            && Fits(next + text[edits[0].end..], edits[1..] + others, |next| - edits[0].end)
            && Replay(done + text[p..], edits + others, |done| - p)
               == Replay(next + text[edits[0].end..], edits[1..] + others, |next| - edits[0].end)
  {
    hide Replay;
    hide Fits;
    var e, rest := edits[0], edits[1..] + others;
    assert Appends(text, e);
    var next := done + text[p..e.start] + e.url;
    var t, offset := done + text[p..], |done| - p;
    AppendsFit(text, edits + others, t, offset);
    assert edits + others == [e] + rest;
    ReplayStep(t, e, rest, offset);
    assert t[..e.start + offset] == done + text[p..e.start];
    assert t[e.end + offset..] == text[e.end..];
  }

  // ---- The method ----

  /** The last loop of get_sign_content. */
  method Reconstruct(content: string, signedUrls: seq<Edit>) returns (text: string)
    requires Fits(content, signedUrls, 0)
    ensures text == Replay(content, signedUrls, 0)
  {
    hide Replay;
    hide Fits;
    text := content;
    var offset := 0;
    assert signedUrls[0..] == signedUrls;
    for i := 0 to |signedUrls|
      invariant offset >= 0 && Fits(text, signedUrls[i..], offset)
      invariant Replay(text, signedUrls[i..], offset) == Replay(content, signedUrls, 0)
    {
      var e := signedUrls[i];
      assert signedUrls[i..] == [e] + signedUrls[i + 1..];
      ReplayStep(text, e, signedUrls[i + 1..], offset);
      text := text[..e.start + offset] + e.url + text[e.end + offset..];
      offset := offset + |e.url| - (e.end - e.start);
    }
    ReplayNothing(text, signedUrls[|signedUrls|..], offset);
  }

  /** One of the two loops over re.finditer. */
  method AppendSigned(before: seq<Edit>, content: string, kind: string, params: Span -> string) returns (signedUrls: seq<Edit>)
    ensures signedUrls == before + SignedAll(content, Matches(content, kind, 0), params)
  {
    signedUrls := before;
    var matches := Matches(content, kind, 0);
    hide Matches;
    for i := 0 to |matches|
      invariant signedUrls == before + SignedAll(content, matches, params)[..i]
    {
      var m := matches[i];
      SignedAt(content, matches, params, i);
      signedUrls := signedUrls + [Edit(m.start, m.end, content[m.start..m.end] + "?" + params(m))];
    }
  }

  lemma SignedAt(text: string, ms: seq<Span>, params: Span -> string, i: nat)
    requires i < |ms| && forall m :: m in ms ==> m.start <= m.end <= |text|
    ensures ms[i].start <= ms[i].end <= |text|
    ensures var m, all := ms[i], SignedAll(text, ms, params);
            all[..i + 1] == all[..i] + [Edit(m.start, m.end, text[m.start..m.end] + "?" + params(m))]
  {
  }

  /** The links to sign, in the order the method collects them: all images, then all files. */
  function Links(text: string, params: Span -> string): (r: seq<Edit>)
    ensures AllAppend(text, r) && Fits(text, r, 0)
  {
    SignedAppend(text, params);
    AppendsFit(text, Images(text, params) + Files(text, params), text, 0);
    Images(text, params) + Files(text, params)
  }

  method GetSignContent(content: string, params: Span -> string) returns (text: string)
    ensures text == Replay(content, Links(content, params), 0)
  {
    hide *;
    var signedUrls := AppendSigned([], content, IMAGE, params);
    signedUrls := AppendSigned(signedUrls, content, FILE, params);
    assert signedUrls == Links(content, params) by { CollectsLinks(content, params); }
    text := Reconstruct(content, signedUrls);
  }

  lemma CollectsLinks(text: string, params: Span -> string)
    ensures [] + SignedAll(text, Matches(text, IMAGE, 0), params) + SignedAll(text, Matches(text, FILE, 0), params)
         == Links(text, params)
  {
    hide SignedAll;
    hide Matches;
    hide AllAppend;
    hide Fits;
    var images, files := SignedAll(text, Matches(text, IMAGE, 0), params), SignedAll(text, Matches(text, FILE, 0), params);
    assert [] + images == images;
    assert Links(text, params) == images + files;
  }

  lemma ReplayNothing(text: string, edits: seq<Edit>, offset: nat)
    requires edits == []
    ensures Fits(text, edits, offset) && Replay(text, edits, offset) == text
  {
  }

  lemma SignedAllAppends(text: string, ms: seq<Span>, params: Span -> string)
    requires forall m :: m in ms ==> m.start < m.end <= |text|
    ensures AllAppend(text, SignedAll(text, ms, params))
  {
    forall k | 0 <= k < |ms|
      ensures Appends(text, SignedAll(text, ms, params)[k])
    {
      var m := ms[k];
      assert SignedAll(text, ms, params)[k] == Signed(text, m, params);
      assert (text[m.start..m.end] + "?" + params(m))[..m.end - m.start] == text[m.start..m.end];
    }
  }

  lemma SignedAppend(text: string, params: Span -> string)
    ensures AllAppend(text, Images(text, params)) && AllAppend(text, Files(text, params))
    ensures AllAppend(text, Images(text, params) + Files(text, params))
    ensures Ordered(Images(text, params)) && Ordered(Files(text, params))
  {
    hide Appends;
    SignedAllAppends(text, Matches(text, IMAGE, 0), params);
    SignedAllAppends(text, Matches(text, FILE, 0), params);
  }

  lemma OrderedReplayFromStart(text: string, edits: seq<Edit>, others: seq<Edit>)
    requires AllAppend(text, edits) && AllAppend(text, others) && Ordered(edits)
    ensures TotalGrowth(edits) >= 0 && Fits(text, edits + others, 0)
    ensures var signed := Substitute(text, edits, 0);
            && Fits(signed, others, TotalGrowth(edits))
            && Replay(text, edits + others, 0) == Replay(signed, others, TotalGrowth(edits))
  {
    hide *;
    OrderedReplayIsSubstitution(text, edits, others, "", 0);
    NothingBefore(text);
    NothingBefore(Substitute(text, edits, 0));
  }

  lemma NothingBefore(s: string)
    ensures "" + s[0..] == s && "" + s == s
  {
  }

  /** For edits in the order of the text the loop is the substitution. */
  lemma OrderedLinksAreSigned(text: string, edits: seq<Edit>)
    requires AllAppend(text, edits) && Ordered(edits)
    ensures Fits(text, edits, 0) && Replay(text, edits, 0) == Substitute(text, edits, 0)
  {
    OrderedReplayFromStart(text, edits, []);
    assert edits + [] == edits;
    ReplayNothing(Substitute(text, edits, 0), [], TotalGrowth(edits));
  }

  // ---- Edits out of order ----

  lemma {:induction false} ReplayKeepsFront(text: string, edits: seq<Edit>, offset: nat, q: nat)
    requires Fits(text, edits, offset) && q <= |text|
    requires forall k :: 0 <= k < |edits| ==> q <= edits[k].start + offset
    ensures |Replay(text, edits, offset)| >= q && Replay(text, edits, offset)[..q] == text[..q]
    decreases |edits|
  {
    if edits != [] {
      var e := edits[0];
      assert edits == [e] + edits[1..];
      ReplayStep(text, e, edits[1..], offset);
      var next := text[..e.start + offset] + e.url + text[e.end + offset..];
      ReplayKeepsFront(next, edits[1..], offset + Growth(e), q);
      assert next[..q] == text[..q];
    }
  }

  /** Of ordered edits, the first lands where the offset says and stays there. */
  lemma FirstEditStays(text: string, edits: seq<Edit>, offset: nat)
    requires edits != [] && Fits(text, edits, offset) && Ordered(edits)
    ensures var e, r := edits[0], Replay(text, edits, offset);
            && e.start <= e.end && e.end + offset <= |text| && StartsAt(r, e.start + offset, e.url)
            && r[..e.start + offset] == text[..e.start + offset]
  {
    hide Replay;
    var e := edits[0];
    assert edits == [e] + edits[1..];
    ReplayStep(text, e, edits[1..], offset);
    var next := text[..e.start + offset] + e.url + text[e.end + offset..];
    var q := e.start + offset + |e.url|;
    ReplayKeepsFront(next, edits[1..], offset + Growth(e), q);
    SamePrefix(next, Replay(next, edits[1..], offset + Growth(e)), q, e.start + offset);
  }

  lemma SamePrefix(s: string, t: string, q: nat, i: nat)
    requires i <= q <= |s| && q <= |t| && s[..q] == t[..q]
    ensures s[..i] == t[..i] && s[i..q] == t[i..q]
  {
    assert s[..i] == s[..q][..i] && t[..i] == t[..q][..i];
    assert s[i..q] == s[..q][i..] && t[i..q] == t[..q][i..];
  }

  lemma {:induction false} AtConcat(xs: seq<Edit>, ys: seq<Edit>, i: nat)
    ensures At(xs + ys, i) == if At(xs, i).Some? then At(xs, i) else At(ys, i)
  {
    if xs == [] {
      assert xs + ys == ys;
    } else {
      assert (xs + ys)[1..] == xs[1..] + ys;
      AtConcat(xs[1..], ys, i);
    }
  }

  /** Two lists with the same edits before s agree on what comes before s. */
  lemma {:induction false} CommonFront(text: string, xs: seq<Edit>, ys: seq<Edit>, i: nat, s: nat) returns (front: string)
    requires i <= s <= |text| && AllAppend(text, xs) && AllAppend(text, ys)
    requires forall j :: i <= j < s ==> At(xs, j) == At(ys, j)
    requires forall j :: i <= j < s && At(xs, j).Some? ==> At(xs, j).value.end <= s
    ensures Substitute(text, xs, i) == front + Substitute(text, xs, s)
    ensures Substitute(text, ys, i) == front + Substitute(text, ys, s)
    decreases s - i
  {
    hide Substitute;
    hide AllAppend;
    hide At;
    if i == s {
      front := "";
    } else {
      SubstituteAt(text, xs, i);
      SubstituteAt(text, ys, i);
      var next, head := i + 1, [text[i]];
      if At(xs, i).Some? {
        next, head := At(xs, i).value.end, At(xs, i).value.url;
      }
      var rest := CommonFront(text, xs, ys, next, s);
      front := head + rest;
      Reassociate(head, rest, Substitute(text, xs, s));
      Reassociate(head, rest, Substitute(text, ys, s));
    }
  }

  lemma {:induction false} SubstituteGrows(text: string, edits: seq<Edit>, e: Edit, i: nat)
    requires AllAppend(text, edits) && Ordered(edits) && e in edits && i <= e.start
    ensures e.start < e.end <= |text| && |Substitute(text, edits, i)| > |text| - i
    decreases |text| - i
  {
    var k :| 0 <= k < |edits| && edits[k] == e;
    assert Appends(text, e);
    var at := At(edits, i);
    if at.Some? {
      var l :| 0 <= l < |edits| && edits[l] == at.value;
      assert Appends(text, at.value);
      SubstituteNeverShrinks(text, edits, at.value.end);
    } else {
      SubstituteGrows(text, edits, e, i + 1);
    }
  }

  lemma {:induction false} SubstituteNeverShrinks(text: string, edits: seq<Edit>, i: nat)
    requires AllAppend(text, edits) && i <= |text|
    ensures |Substitute(text, edits, i)| >= |text| - i
    ensures i < |text| ==> Substitute(text, edits, i)[0] == text[i]
    decreases |text| - i
  {
    if i < |text| {
      var at := At(edits, i);
      SubstituteNeverShrinks(text, edits, if at.Some? then at.value.end else i + 1);
      if at.Some? {
        assert Appends(text, at.value);
        assert at.value.url[0] == at.value.url[..at.value.end - i][0] == text[i];
      }
    }
  }

  predicate Apart(xs: seq<Edit>, ys: seq<Edit>) {
    forall i, j :: 0 <= i < |xs| && 0 <= j < |ys| ==> xs[i].end <= ys[j].start || ys[j].end <= xs[i].start
  }

  predicate NoMark(text: string, i: nat, j: nat) {
    forall k :: i <= k < j && k < |text| ==> text[k] != '?'
  }

  predicate NoSlash(text: string, i: nat, j: nat) {
    forall k :: i <= k < j && k < |text| ==> text[k] != '/'
  }

  /** What is known of a file's link and its signature. */
  predicate IsSignedLink(text: string, f: Edit) {
    && Appends(text, f) && NoMark(text, f.start, f.end) && text[f.start] == '/'
    && NoSlash(f.url, f.end - f.start, |f.url|)
  }

  predicate SlashStarts(text: string, edits: seq<Edit>) {
    forall k :: 0 <= k < |edits| ==> edits[k].start < |text| && text[edits[k].start] == '/'
  }

  lemma {:induction false} NextSlash(text: string, i: nat, j: nat) returns (z: nat)
    requires i <= j < |text| && text[j] == '/'
    ensures i <= z <= j && text[z] == '/' && NoSlash(text, i, z)
    decreases j - i
  {
    if text[i] == '/' {
      z := i;
    } else {
      z := NextSlash(text, i + 1, j);
    }
  }

  /** Every edit starts with a slash: nothing is substituted before the next one. */
  lemma PlainUntilSlash(text: string, edits: seq<Edit>, i: nat, z: nat)
    requires AllAppend(text, edits) && SlashStarts(text, edits)
    requires i <= z < |text| && text[z] == '/' && NoSlash(text, i, z)
    ensures var r := Substitute(text, edits, i); |r| > z - i && r[..z - i] == text[i..z] && r[z - i] == '/'
  {
    hide Substitute;
    hide AllAppend;
    NoEditsChangeNothing(text, edits, i, z);
    SubstituteNeverShrinks(text, edits, z);
  }

  /** The signature lands d characters after the file's place, where the link should follow. Too
      early, and the mark after the link is missing ... */
  lemma MarkMissing(text: string, f: Edit, front: string, place: nat, wrong: string, right: string)
    requires IsSignedLink(text, f) && |front| < place <= |front| + f.end - f.start
    requires StartsAt(wrong, place, f.url) && StartsAt(right, |front|, f.url)
    ensures wrong != right
  {
    var len, d := f.end - f.start, place - |front|;
    var q := |front| + len;
    assert right[q] == right[|front|..|front| + |f.url|][len] == '?';
    assert wrong[q] == wrong[place..place + |f.url|][len - d] == f.url[..len][len - d] == text[f.start..f.end][len - d];
  }

  /** ... before the next slash, and the link's own comes too soon ... */
  lemma SlashTooSoon(f: Edit, place: nat, wrong: string, right: string)
    requires StartsAt(wrong, place, f.url) && |f.url| > 0 && f.url[0] == '/' && place < |right| && right[place] != '/'
    ensures wrong != right
  {
    assert wrong[place] == wrong[place..place + |f.url|][0];
  }

  /** ... or later, and the next slash comes too soon, for no signature was put before it. */
  lemma SignatureMissing(signed: string, q: nat, place: nat, wrong: string, right: string)
    requires q < place <= |signed| && place <= |wrong| && wrong[..place] == signed[..place]
    requires signed[q] == '/' && q < |right| && right[q] != '/'
    ensures wrong != right
  {
    assert wrong[q] == wrong[..place][q];
  }

  /** The text as it should be has no slash between the file's link and the next one, moved on by
      the signature. */
  lemma NoSlashAfterLink(text: string, f: Edit, z: nat, front: string, tail: string)
    requires IsSignedLink(text, f) && f.end <= z < |text| && NoSlash(text, f.end, z)
    requires |tail| > z - f.end && tail[..z - f.end] == text[f.end..z]
    ensures var right := front + (f.url + tail);
            && |right| > |front| + |f.url| + (z - f.end)
            && NoSlash(right, |front| + f.end - f.start, |front| + |f.url| + (z - f.end))
  {
    var right := front + (f.url + tail);
    forall k | |front| + f.end - f.start <= k < |front| + |f.url| + (z - f.end)
      ensures right[k] != '/'
    {
      if k < |front| + |f.url| {
        assert right[k] == f.url[k - |front|];
      } else {
        var t := k - |front| - |f.url|;
        assert right[k] == tail[t] == tail[..z - f.end][t] == text[f.end..z][t] == text[f.end + t];
      }
    }
  }

  /** With the images signed in place, the first file's signature goes to its old place moved
      by the growth of all images. */
  lemma FirstFileReplayed(text: string, images: seq<Edit>, files: seq<Edit>)
    requires files != [] && Ordered(images) && Ordered(files) && AllAppend(text, images) && AllAppend(text, files)
    ensures Fits(text, images + files, 0)
    ensures var signed := Substitute(text, images, 0);
            var place := files[0].start + |signed| - |text|;
            var r := Replay(text, images + files, 0);
            0 <= place <= |signed| && StartsAt(r, place, files[0].url) && r[..place] == signed[..place]
  {
    hide *;
    SubstituteLength(text, images, 0);
    OrderedReplayFromStart(text, images, files);
    FirstEditStays(Substitute(text, images, 0), files, TotalGrowth(images));
  }

  /** An image after the first file: the loop puts the first file's signature too far right, and
      whatever the text is, the outcome is not what was meant. */
  lemma MisplacedFile(text: string, images: seq<Edit>, files: seq<Edit>)
    requires images != [] && files != [] && Ordered(images) && Ordered(files) && Apart(images, files)
    requires AllAppend(text, images) && AllAppend(text, files) && SlashStarts(text, images) && SlashStarts(text, files)
    requires images[|images| - 1].start >= files[0].end && IsSignedLink(text, files[0])
    ensures AllAppend(text, images + files) && Fits(text, images + files, 0)
    ensures Replay(text, images + files, 0) != Substitute(text, images + files, 0)
  {
    hide *;
    FirstFileReplayed(text, images, files);
    var front := FrontBeforeFile(text, images, files);
    RestAfterFile(text, images, files);
    var z := SlashBeforeImage(text, images, files, front);
    Mismatch(text, files[0], z, front, Substitute(text, images, files[0].end), Substitute(text, images + files, files[0].end),
             Substitute(text, images, 0), Replay(text, images + files, 0));
  }

  /** The first slash after the file's link, in the text with the images signed and as it should be. */
  lemma SlashBeforeImage(text: string, images: seq<Edit>, files: seq<Edit>, front: string) returns (z: nat)
    requires images != [] && files != [] && AllAppend(text, images) && AllAppend(text, images + files)
    requires SlashStarts(text, images) && SlashStarts(text, files)
    requires images[|images| - 1].start >= files[0].end && IsSignedLink(text, files[0])
    ensures var f := files[0];
            var rest, tail := Substitute(text, images, f.end), Substitute(text, images + files, f.end);
            && f.end <= z < |text| && |f.url| > 0 && f.url[0] == '/'
            && |rest| > z - f.end && rest[z - f.end] == '/'
            && |front + (f.url + tail)| > |front| + |f.url| + (z - f.end)
            && NoSlash(front + (f.url + tail), |front| + f.end - f.start, |front| + |f.url| + (z - f.end))
  {
    hide *;
    var f := files[0];
    Slashes(text, images, files);
    z := NextSlash(text, f.end, images[|images| - 1].start);
    PlainUntilSlash(text, images, f.end, z);
    PlainUntilSlash(text, images + files, f.end, z);
    NoSlashAfterLink(text, f, z, front, Substitute(text, images + files, f.end));
  }

  lemma Slashes(text: string, images: seq<Edit>, files: seq<Edit>)
    requires images != [] && files != [] && SlashStarts(text, images) && SlashStarts(text, files)
    requires IsSignedLink(text, files[0])
    ensures SlashStarts(text, images + files)
    ensures images[|images| - 1].start < |text| && text[images[|images| - 1].start] == '/'
    ensures |files[0].url| > 0 && files[0].url[0] == '/'
  {
    var f := files[0];
    assert f.url[0] == f.url[..f.end - f.start][0];
  }

  lemma Mismatch(text: string, f: Edit, z: nat, front: string, rest: string, tail: string, signed: string, wrong: string)
    requires IsSignedLink(text, f) && f.end <= z < |text| && |f.url| > 0 && f.url[0] == '/'
    requires signed == front + (text[f.start..f.end] + rest) && |rest| > z - f.end && rest[z - f.end] == '/'
    requires var place := f.start + |signed| - |text|;
             && |front| < place <= |signed| && StartsAt(wrong, place, f.url) && wrong[..place] == signed[..place]
    requires var right := front + (f.url + tail);
             && |right| > |front| + |f.url| + (z - f.end)
             && NoSlash(right, |front| + f.end - f.start, |front| + |f.url| + (z - f.end))
    ensures wrong != front + (f.url + tail)
  {
    var len, place, right := f.end - f.start, f.start + |signed| - |text|, front + (f.url + tail);
    var q := |front| + len + (z - f.end);
    assert |f.url| > len;
    if place <= |front| + len {
      AppendedStarts(front, f.url, tail);
      MarkMissing(text, f, front, place, wrong, right);
    } else if place <= q {
      SlashTooSoon(f, place, wrong, right);
    } else {
      assert signed[q] == (text[f.start..f.end] + rest)[len + (z - f.end)] == rest[z - f.end];
      SignatureMissing(signed, q, place, wrong, right);
    }
  }

  lemma FrontBeforeFile(text: string, images: seq<Edit>, files: seq<Edit>) returns (front: string)
    requires files != [] && Ordered(files) && Apart(images, files)
    requires AllAppend(text, images) && AllAppend(text, files)
    ensures AllAppend(text, images + files) && files[0].start <= files[0].end <= |text|
    ensures Substitute(text, images, 0) == front + Substitute(text, images, files[0].start)
    ensures Substitute(text, images + files, 0) == front + (files[0].url + Substitute(text, images + files, files[0].end))
  {
    var f := files[0];
    assert Appends(text, f);
    forall j | 0 <= j < f.start
      ensures At(images, j) == At(images + files, j)
      ensures At(images, j).Some? ==> At(images, j).value.end <= f.start
    {
      AtConcat(images, files, j);
    }
    front := CommonFront(text, images, images + files, 0, f.start);
    AtConcat(images, files, f.start);
    assert At(images, f.start).None?;
    assert Substitute(text, images + files, f.start) == f.url + Substitute(text, images + files, f.end);
  }

  lemma AppendedStarts(front: string, middle: string, back: string)
    ensures StartsAt(front + (middle + back), |front|, middle)
  {
  }

  lemma RestAfterFile(text: string, images: seq<Edit>, files: seq<Edit>)
    requires images != [] && files != [] && Ordered(images) && Apart(images, files)
    requires AllAppend(text, images) && AllAppend(text, files) && images[|images| - 1].start >= files[0].end
    ensures files[0].start <= files[0].end < |text|
    ensures |Substitute(text, images, files[0].start)| > |text| - files[0].start
    ensures Substitute(text, images, files[0].start)
         == text[files[0].start..files[0].end] + Substitute(text, images, files[0].end)
  {
    var f, last := files[0], images[|images| - 1];
    assert Appends(text, f) && Appends(text, last);
    SubstituteGrows(text, images, last, f.start);
    forall e | e in images
      ensures !(f.start <= e.start < f.end)
    {
      var k :| 0 <= k < |images| && images[k] == e;
      assert Appends(text, images[k]);
    }
    NoEditsChangeNothing(text, images, f.start, f.end);
  }

  // ---- The links themselves ----

  predicate IsKind(kind: string) {
    kind == IMAGE || kind == FILE
  }

  lemma CharsAt(text: string, i: nat, s: string)
    requires StartsAt(text, i, s)
    ensures forall p :: i <= p < i + |s| ==> text[p] == s[p - i]
  {
    assert forall p :: i <= p < i + |s| ==> text[p] == text[i..i + |s|][p - i];
  }

  /** What the pattern says about the characters of a link. */
  lemma LinkShape(text: string, i: nat, kind: string)
    requires i <= |text| && LinkEnd(text, i, kind).Some?
    ensures var end := LinkEnd(text, i, kind).value;
            var m := end - |kind|;
            && i + |FILES| < m && end <= |text| && m == IdEnd(text, i + |FILES|)
            && (forall p :: i <= p < i + |FILES| ==> text[p] == FILES[p - i])
            && (forall p :: i + |FILES| <= p < m ==> IsIdChar(text[p]))
            && (forall p :: m <= p < end ==> text[p] == kind[p - m])
  {
    CharsAt(text, i, FILES);
    CharsAt(text, IdEnd(text, i + |FILES|), kind);
  }

  lemma LinkHasNoMark(text: string, i: nat, kind: string)
    requires i <= |text| && LinkEnd(text, i, kind).Some? && IsKind(kind)
    ensures NoMark(text, i, LinkEnd(text, i, kind).value)
  {
    LinkShape(text, i, kind);
    hide LinkEnd;
    hide IdEnd;
  }

  /** No link starts inside another one: a link has no other place for "/files/". */
  lemma LinksApart(text: string, i: nat, kind: string, j: nat, other: string)
    requires i < j <= |text| && IsKind(kind)
    requires LinkEnd(text, i, kind).Some? && LinkEnd(text, j, other).Some?
    ensures LinkEnd(text, i, kind).value <= j
  {
    FilesAt(text, j, other);
    hide LinkEnd;
    if j < LinkEnd(text, i, kind).value {
      NoFilesInside(text, i, kind, j);
    }
  }

  lemma FilesAt(text: string, j: nat, kind: string)
    requires j <= |text| && LinkEnd(text, j, kind).Some?
    ensures j + |FILES| <= |text|
    ensures text[j] == '/' && text[j + 1] == 'f' && text[j + 2] == 'i' && text[j + 5] == 's'
  {
    LinkShape(text, j, kind);
  }

  lemma NotBothKinds(text: string, i: nat)
    requires i <= |text| && LinkEnd(text, i, IMAGE).Some?
    ensures LinkEnd(text, i, FILE).None?
  {
    var m := IdEnd(text, i + |FILES|);
    CharsAt(text, m, IMAGE);
    assert text[m + 1] == 'i';
    if StartsAt(text, m, FILE) {
      CharsAt(text, m, FILE);
      assert false;
    }
  }

  lemma NoFilesInside(text: string, i: nat, kind: string, j: nat)
    requires i <= |text| && LinkEnd(text, i, kind).Some? && IsKind(kind)
    requires i < j < LinkEnd(text, i, kind).value && j + |FILES| <= |text|
    ensures text[j] != '/' || text[j + 1] != 'f' || text[j + 2] != 'i' || text[j + 5] != 's'
  {
    LinkShape(text, i, kind);
    hide LinkEnd;
    var m := IdEnd(text, i + |FILES|);
    if j < i + |FILES| {
      assert text[m] == '/';
    } else if j >= m {
      assert text[m + 1] == kind[1] && text[m + 5] == kind[5];
    }
  }

  /** No link is missed: skipping to the end of one never jumps over the start of another. */
  lemma {:induction false} EveryLinkIsMatched(text: string, kind: string, i: nat, j: nat)
    requires i <= j <= |text| && IsKind(kind) && LinkEnd(text, j, kind).Some?
    ensures Span(j, LinkEnd(text, j, kind).value) in Matches(text, kind, i)
    decreases |text| - i
  {
    var at := LinkEnd(text, i, kind);
    if i < j {
      if at.Some? {
        LinksApart(text, i, kind, j, kind);
      }
      EveryLinkIsMatched(text, kind, if at.Some? then at.value else i + 1, j);
    }
  }

  lemma MatchesApart(text: string, m: Span, n: Span)
    requires m in Matches(text, IMAGE, 0) && n in Matches(text, FILE, 0)
    ensures m.end <= n.start || n.end <= m.start
  {
    if m.start == n.start {
      NotBothKinds(text, m.start);
    } else if m.start < n.start {
      LinksApart(text, m.start, IMAGE, n.start, FILE);
    } else {
      LinksApart(text, n.start, FILE, m.start, IMAGE);
    }
  }

  lemma ImagesApartFromFiles(text: string, params: Span -> string)
    ensures Apart(Images(text, params), Files(text, params))
  {
    hide LinkEnd;
    var images, files := Matches(text, IMAGE, 0), Matches(text, FILE, 0);
    forall a, b | 0 <= a < |images| && 0 <= b < |files|
      ensures images[a].end <= files[b].start || files[b].end <= images[a].start
    {
      MatchesApart(text, images[a], files[b]);
    }
    assert forall a :: 0 <= a < |images| ==> Images(text, params)[a] == Signed(text, images[a], params);
    assert forall b :: 0 <= b < |files| ==> Files(text, params)[b] == Signed(text, files[b], params);
  }

  /** Every image link stands before every file link. */
  predicate ImagesFirst(text: string) {
    forall m, n :: m in Matches(text, IMAGE, 0) && n in Matches(text, FILE, 0) ==> m.end <= n.start
  }

  /** Parameters of a signature never hold a slash: they are digits, hexadecimal digits and the
      URL-safe alphabet of base 64. */
  ghost predicate SlashFree(params: Span -> string) {
    forall m: Span :: NoSlash(params(m), 0, |params(m)|)
  }

  /** A text is signed as meant exactly if all its image links come before all its file links. */
  lemma SignedAsMeantExactly(text: string, params: Span -> string)
    requires SlashFree(params)
    ensures Replay(text, Links(text, params), 0) == Substitute(text, Links(text, params), 0) <==> ImagesFirst(text)
  {
    hide *;
    SignedAppend(text, params);
    ImagesApartFromFiles(text, params);
    LinksAre(text, params);
    if ImagesFirst(text) {
      OrderedIfImagesFirst(text, params);
      OrderedLinksAreSigned(text, Links(text, params));
    } else {
      LastImageAfterFirstFile(text, params);
      LinksStartWithSlash(text, params);
      FirstFileIsSignedLink(text, params);
      MisplacedFile(text, Images(text, params), Files(text, params));
    }
  }

  lemma LinksAre(text: string, params: Span -> string)
    ensures Links(text, params) == Images(text, params) + Files(text, params)
  {
  }

  lemma OrderedIfImagesFirst(text: string, params: Span -> string)
    requires ImagesFirst(text)
    ensures Ordered(Links(text, params))
  {
    var images, files := Matches(text, IMAGE, 0), Matches(text, FILE, 0);
    forall i, j | 0 <= i < |images| && 0 <= j < |files|
      ensures images[i].end <= files[j].start
    {
      assert images[i] in images && files[j] in files;
    }
    hide *;
    Places(text, params);
    SignedAppend(text, params);
    OrderedConcat(Images(text, params), Files(text, params));
    LinksAre(text, params);
  }

  lemma OrderedConcat(xs: seq<Edit>, ys: seq<Edit>)
    requires Ordered(xs) && Ordered(ys) && forall i, j :: 0 <= i < |xs| && 0 <= j < |ys| ==> xs[i].end <= ys[j].start
    ensures Ordered(xs + ys)
  {
  }

  lemma LastImageAfterFirstFile(text: string, params: Span -> string)
    requires !ImagesFirst(text)
    ensures var images, files := Images(text, params), Files(text, params);
            images != [] && files != [] && images[|images| - 1].start >= files[0].end
  {
    hide *;
    Places(text, params);
    LastAfterFirst(text);
  }

  lemma MatchStartsWithSlash(text: string, kind: string, k: nat)
    requires k < |Matches(text, kind, 0)|
    ensures var m := Matches(text, kind, 0)[k]; m.start < |text| && text[m.start] == '/'
  {
    var m := Matches(text, kind, 0)[k];
    assert m in Matches(text, kind, 0);
    LinkShape(text, m.start, kind);
  }

  lemma LinksStartWithSlash(text: string, params: Span -> string)
    ensures SlashStarts(text, Images(text, params)) && SlashStarts(text, Files(text, params))
  {
    hide Matches;
    hide LinkEnd;
    Places(text, params);
    forall k | 0 <= k < |Images(text, params)|
      ensures Images(text, params)[k].start < |text| && text[Images(text, params)[k].start] == '/'
    {
      MatchStartsWithSlash(text, IMAGE, k);
    }
    forall k | 0 <= k < |Files(text, params)|
      ensures Files(text, params)[k].start < |text| && text[Files(text, params)[k].start] == '/'
    {
      MatchStartsWithSlash(text, FILE, k);
    }
  }

  lemma FirstFileIsSignedLink(text: string, params: Span -> string)
    requires SlashFree(params) && Files(text, params) != []
    ensures IsSignedLink(text, Files(text, params)[0])
  {
    hide LinkEnd;
    Places(text, params);
    SignedAppend(text, params);
    LinksStartWithSlash(text, params);
    var m := Matches(text, FILE, 0)[0];
    assert m in Matches(text, FILE, 0);
    LinkHasNoMark(text, m.start, FILE);
    SignatureHasNoSlash(text, m, params);
    assert Files(text, params)[0] == Signed(text, m, params);
  }

  lemma SignatureHasNoSlash(text: string, m: Span, params: Span -> string)
    requires SlashFree(params) && m.start <= m.end <= |text|
    ensures var e := Signed(text, m, params); NoSlash(e.url, m.end - m.start, |e.url|)
  {
    var url, len := Signed(text, m, params).url, m.end - m.start;
    forall k | len <= k < |url|
      ensures url[k] != '/'
    {
      assert NoSlash(params(m), 0, |params(m)|);
      assert k > len ==> url[k] == params(m)[k - len - 1];
    }
  }

  /** The edits are where the matches are. */
  lemma Places(text: string, params: Span -> string)
    ensures var images, matches := Images(text, params), Matches(text, IMAGE, 0);
            |images| == |matches| && forall k :: 0 <= k < |images| ==> images[k].start == matches[k].start && images[k].end == matches[k].end
    ensures var files, matches := Files(text, params), Matches(text, FILE, 0);
            |files| == |matches| && forall k :: 0 <= k < |files| ==> files[k].start == matches[k].start && files[k].end == matches[k].end
  {
    hide Matches;
  }

  lemma LastAfterFirst(text: string)
    requires !ImagesFirst(text)
    ensures var images, files := Matches(text, IMAGE, 0), Matches(text, FILE, 0);
            images != [] && files != [] && images[|images| - 1].start >= files[0].end
  {
    var m, n :| m in Matches(text, IMAGE, 0) && n in Matches(text, FILE, 0) && !(m.end <= n.start);
    LastAfterFirstAt(text, m, n);
  }

  lemma LastAfterFirstAt(text: string, m: Span, n: Span)
    requires m in Matches(text, IMAGE, 0) && n in Matches(text, FILE, 0) && m.end > n.start
    ensures var images, files := Matches(text, IMAGE, 0), Matches(text, FILE, 0);
            images != [] && files != [] && images[|images| - 1].start >= files[0].end
  {
    hide *;
    MatchesApart(text, m, n);
    MatchesBound(text, IMAGE, m);
    MatchesBound(text, FILE, n);
  }

  lemma MatchesBound(text: string, kind: string, m: Span)
    requires m in Matches(text, kind, 0)
    ensures var ms := Matches(text, kind, 0);
            ms != [] && ms[0].end <= m.end && m.start <= ms[|ms| - 1].start
  {
    hide *;
    FirstAndLast(Matches(text, kind, 0), m);
  }

  lemma FirstAndLast(ms: seq<Span>, m: Span)
    requires m in ms && forall a, b :: 0 <= a < b < |ms| ==> ms[a].end <= ms[b].start
    requires forall n :: n in ms ==> n.start < n.end
    ensures ms[0].end <= m.end && m.start <= ms[|ms| - 1].start
  {
    var a :| 0 <= a < |ms| && ms[a] == m;
    assert ms[0] in ms && ms[|ms| - 1] in ms;
  }

  // ---- Which texts are links ----

  /** The characters of an identifier are the sixteen hexadecimal digits and the dash. */
  lemma IdCharsExactly(c: char)
    ensures IsIdChar(c) <==> c in "0123456789abcdef-"
  {
    var all := "0123456789abcdef-";
    assert forall k :: 0 <= k < 10 ==> all[k] == (48 + k) as char;
    assert forall k :: 10 <= k < 16 ==> all[k] == (87 + k) as char;
    assert all[16] == '-';
    if '0' <= c <= '9' {
      assert all[c as int - 48] == c;
    }
    if 'a' <= c <= 'f' {
      assert all[c as int - 87] == c;
    }
    if k :| 0 <= k < |all| && all[k] == c {
      assert k < 10 || 10 <= k < 16 || k == 16;
    }
  }

  lemma {:induction false} IdEndIs(text: string, i: nat, j: nat)
    requires i <= j < |text| && !IsIdChar(text[j]) && forall k :: i <= k < j ==> IsIdChar(text[k])
    ensures IdEnd(text, i) == j
    decreases j - i
  {
    if i < j {
      IdEndIs(text, i + 1, j);
    }
  }

  lemma MadeLink(front: string, id: string, kind: string, back: string)
    requires id != "" && (forall c :: c in id ==> c in "0123456789abcdef-") && IsKind(kind)
    ensures LinkEnd(front + "/files/" + id + kind + back, |front|, kind) == Some(|front| + 7 + |id| + |kind|)
  {
    var text := front + "/files/" + id + kind + back;
    var i := |front| + 7;
    var j := i + |id|;
    assert text[|front|..i] == FILES && text[i..j] == id && text[j..j + |kind|] == kind;
    assert text[j] == kind[0] == '/';
    forall k | i <= k < j
      ensures IsIdChar(text[k])
    {
      assert text[k] == id[k - i];
      IdCharsExactly(id[k - i]);
    }
    IdEndIs(text, i, j);
  }

  /** Wherever a text holds such a link it is matched, whatever stands before and after it. */
  lemma EveryFormIsMatched(front: string, id: string, kind: string, back: string)
    requires id != "" && (forall c :: c in id ==> c in "0123456789abcdef-")
    requires kind == "/image-preview" || kind == "/file-preview"
    ensures Span(|front|, |front| + 7 + |id| + |kind|) in Matches(front + "/files/" + id + kind + back, kind, 0)
  {
    KindIs(kind);
    hide *;
    MadeLink(front, id, kind, back);
    MatchedAt(front + "/files/" + id + kind + back, kind, |front|, |front| + 7 + |id| + |kind|);
  }

  lemma KindIs(kind: string)
    ensures IsKind(kind) <==> kind == "/image-preview" || kind == "/file-preview"
  {
  }

  lemma MatchedAt(text: string, kind: string, i: nat, end: nat)
    requires IsKind(kind) && i <= |text| && LinkEnd(text, i, kind) == Some(end)
    ensures Span(i, end) in Matches(text, kind, 0)
  {
    hide *;
    EveryLinkIsMatched(text, kind, 0, i);
  }

  /** And every match has this form. */
  lemma EveryMatchHasForm(text: string, kind: string, m: Span) returns (id: string)
    requires (kind == "/image-preview" || kind == "/file-preview") && m in Matches(text, kind, 0)
    ensures id != "" && (forall c :: c in id ==> c in "0123456789abcdef-")
    ensures m.start <= m.end <= |text| && text[m.start..m.end] == "/files/" + id + kind
  {
    MatchIsLink(text, kind, m);
    hide *;
    id := LinkHasForm(text, m.start, kind);
  }

  lemma LinkHasForm(text: string, start: nat, kind: string) returns (id: string)
    requires start <= |text| && LinkEnd(text, start, kind).Some?
    ensures id != "" && (forall c :: c in id ==> c in "0123456789abcdef-")
    ensures start <= LinkEnd(text, start, kind).value <= |text|
    ensures text[start..LinkEnd(text, start, kind).value] == "/files/" + id + kind
  {
    LinkShape(text, start, kind);
    var end := LinkEnd(text, start, kind).value;
    assert FILES == "/files/" && |FILES| == 7;
    hide *;
    var i, j := start + 7, end - |kind|;
    id := text[i..j];
    SliceIs(text, start, FILES);
    SliceIs(text, j, kind);
    ThreeSlices(text, start, i, j, end);
    IdIsLiteral(text, i, j);
  }

  lemma MatchIsLink(text: string, kind: string, m: Span)
    requires m in Matches(text, kind, 0)
    ensures m.start <= m.end <= |text| && LinkEnd(text, m.start, kind) == Some(m.end)
  {
  }

  lemma SliceIs(text: string, i: nat, s: string)
    requires i + |s| <= |text| && forall p :: i <= p < i + |s| ==> text[p] == s[p - i]
    ensures text[i..i + |s|] == s
  {
  }

  lemma ThreeSlices(text: string, a: nat, b: nat, c: nat, d: nat)
    requires a <= b <= c <= d <= |text|
    ensures text[a..d] == text[a..b] + text[b..c] + text[c..d]
  {
  }

  lemma IdIsLiteral(text: string, i: nat, j: nat)
    requires i <= j <= |text| && forall k :: i <= k < j ==> IsIdChar(text[k])
    ensures forall c :: c in text[i..j] ==> c in "0123456789abcdef-"
  {
    forall c | c in text[i..j]
      ensures IsIdChar(c)
    {
      var k :| 0 <= k < j - i && text[i..j][k] == c;
      assert text[i + k] == c;
    }
    forall c | c in text[i..j]
      ensures c in "0123456789abcdef-"
    {
      IdCharsExactly(c);
    }
  }

  /** The edits are the matches, each with its own link and signature. */
  lemma LinksExactly(text: string, params: Span -> string, e: Edit)
    ensures e in Links(text, params) <==>
              var m := Span(e.start, e.end);
              && (m in Matches(text, "/image-preview", 0) || m in Matches(text, "/file-preview", 0))
              && e.url == text[m.start..m.end] + "?" + params(m)
  {
    assert IMAGE == "/image-preview" && FILE == "/file-preview";
    hide *;
    LinksAre(text, params);
    SignedExactly(text, IMAGE, params, e);
    SignedExactly(text, FILE, params, e);
    assert Images(text, params) == SignedAll(text, Matches(text, IMAGE, 0), params) by { CollectsImages(text, params); }
    assert Files(text, params) == SignedAll(text, Matches(text, FILE, 0), params) by { CollectsImages(text, params); }
  }

  lemma CollectsImages(text: string, params: Span -> string)
    ensures Images(text, params) == SignedAll(text, Matches(text, IMAGE, 0), params)
    ensures Files(text, params) == SignedAll(text, Matches(text, FILE, 0), params)
  {
  }

  lemma SignedExactly(text: string, kind: string, params: Span -> string, e: Edit)
    ensures e in SignedAll(text, Matches(text, kind, 0), params) <==>
              var m := Span(e.start, e.end); m in Matches(text, kind, 0) && e.url == text[m.start..m.end] + "?" + params(m)
  {
    hide Matches;
    var ms, m := Matches(text, kind, 0), Span(e.start, e.end);
    if e in SignedAll(text, ms, params) {
      var k :| 0 <= k < |ms| && SignedAll(text, ms, params)[k] == e;
      assert Signed(text, ms[k], params) == e && ms[k] == m;
    }
    if m in ms && e.url == text[m.start..m.end] + "?" + params(m) {
      var k :| 0 <= k < |ms| && ms[k] == m;
      assert SignedAll(text, ms, params)[k] == Signed(text, m, params) == e;
    }
  }

  /** Every link in the text is of this kind and stands behind this front. */
  ghost predicate OnlyLinkAt(text: string, front: string, kind: string) {
    forall f: string, i: string, k: string, b: string ::
      (&& f + "/files/" + i + k + b == text
       && i != "" && (forall c :: c in i ==> c in "0123456789abcdef-")
       && (k == "/image-preview" || k == "/file-preview")) ==> f == front && k == kind
  }

  /** A text of one link is signed by putting the signature behind the link. */
  lemma OneLinkIsSigned(front: string, id: string, kind: string, back: string, params: Span -> string)
    requires id != "" && (forall c :: c in id ==> c in "0123456789abcdef-")
    requires kind == "/image-preview" || kind == "/file-preview"
    requires OnlyLinkAt(front + "/files/" + id + kind + back, front, kind)
    ensures var link := "/files/" + id + kind;
            var text := front + link + back;
            var signature := "?" + params(Span(|front|, |front| + |link|));
            Replay(text, Links(text, params), 0) == front + link + signature + back
  {
    KindIs(kind);
    hide *;
    var link := "/files/" + id + kind;
    MadeLink(front, id, kind, back);
    FourParts(front, "/files/", id, kind, back);
    OnlyMatchAt(front + link + back, front, kind, |front| + |link|);
    OnlyLinkIsSigned(front, link, kind, back, params);
    FiveParts(front, link, "?", params(Span(|front|, |front| + |link|)), back);
  }

  lemma OnlyLinkIsSigned(front: string, link: string, kind: string, back: string, params: Span -> string)
    requires IsKind(kind) && Matches(front + link + back, kind, 0) == [Span(|front|, |front| + |link|)]
    requires Matches(front + link + back, if kind == IMAGE then FILE else IMAGE, 0) == []
    ensures var text := front + link + back;
            Replay(text, Links(text, params), 0) == front + (link + "?" + params(Span(|front|, |front| + |link|))) + back
  {
    hide *;
    var text, m := front + link + back, Span(|front|, |front| + |link|);
    Around(front, link, back);
    OnlyLink(text, kind, m, params);
    OneEdit(text, Signed(text, m, params));
    SignedUrl(text, m, params);
  }

  lemma FourParts(a: string, b: string, c: string, d: string, e: string)
    ensures a + (b + c + d) + e == a + b + c + d + e
  {
  }

  lemma FiveParts(a: string, b: string, c: string, d: string, e: string)
    ensures a + (b + c + d) + e == a + b + (c + d) + e
  {
  }

  lemma Around(front: string, link: string, back: string)
    ensures var text, end := front + link + back, |front| + |link|;
            end <= |text| && text[..|front|] == front && text[|front|..end] == link && text[end..] == back
  {
  }

  lemma SignedUrl(text: string, m: Span, params: Span -> string)
    requires m.start <= m.end <= |text|
    ensures Signed(text, m, params) == Edit(m.start, m.end, text[m.start..m.end] + "?" + params(m))
  {
  }

  lemma OneEdit(text: string, e: Edit)
    requires Fits(text, [e], 0)
    ensures e.start <= e.end <= |text| && Replay(text, [e], 0) == text[..e.start] + e.url + text[e.end..]
  {
    ReplayStep(text, e, [], 0);
    assert [e] + [] == [e];
  }

  lemma OnlyLink(text: string, kind: string, m: Span, params: Span -> string)
    requires IsKind(kind) && m.start <= m.end <= |text|
    requires Matches(text, kind, 0) == [m] && Matches(text, if kind == IMAGE then FILE else IMAGE, 0) == []
    ensures Links(text, params) == [Signed(text, m, params)]
  {
    hide Matches;
    assert |IMAGE| != |FILE|;
  }

  lemma AroundLink(text: string, i: nat, end: nat, id: string, kind: string)
    requires i <= end <= |text| && text[i..end] == "/files/" + id + kind
    ensures text[..i] + "/files/" + id + kind + text[end..] == text && |text[..i]| == i
  {
    assert text == text[..i] + text[i..end] + text[end..];
  }

  lemma FormIsOnly(text: string, front: string, kind: string, i: nat, end: nat, id: string, k: string)
    requires OnlyLinkAt(text, front, kind) && i <= end <= |text| && text[i..end] == "/files/" + id + k
    requires id != "" && (forall c :: c in id ==> c in "0123456789abcdef-")
    requires k == "/image-preview" || k == "/file-preview"
    ensures i == |front| && k == kind
  {
    AroundLink(text, i, end, id, k);
  }

  lemma LinkIsOnly(text: string, front: string, kind: string, i: nat, k: string)
    requires OnlyLinkAt(text, front, kind) && i <= |text| && (k == "/image-preview" || k == "/file-preview")
    requires LinkEnd(text, i, k).Some?
    ensures i == |front| && k == kind
  {
    KindIs(k);
    hide *;
    var id := LinkHasForm(text, i, k);
    FormIsOnly(text, front, kind, i, LinkEnd(text, i, k).value, id, k);
  }

  lemma OnlyMatchAt(text: string, front: string, kind: string, end: nat)
    requires OnlyLinkAt(text, front, kind) && IsKind(kind) && |front| < end <= |text|
    requires LinkEnd(text, |front|, kind) == Some(end)
    ensures Matches(text, kind, 0) == [Span(|front|, end)]
    ensures Matches(text, if kind == IMAGE then FILE else IMAGE, 0) == []
  {
    hide LinkEnd;
    hide Matches;
    hide OnlyLinkAt;
    assert |IMAGE| != |FILE|;
    forall i, k | 0 <= i <= |text| && (k == IMAGE || k == FILE) && LinkEnd(text, i, k).Some?
      ensures i == |front| && k == kind
    {
      LinkIsOnly(text, front, kind, i, k);
    }
    NoMatches(text, if kind == IMAGE then FILE else IMAGE, 0);
    NoMatches(text, kind, end);
    FirstMatch(text, kind, 0, |front|);
  }

  /** A file link before an image link: such a text is not signed as meant. */
  lemma FileBeforeImage()
    ensures !ImagesFirst(FILES + "a" + FILE + (FILES + "b" + IMAGE))
  {
    var first, second := FILES + "a" + FILE, FILES + "b" + IMAGE;
    var text := first + second;
    assert "" + "/files/" + "a" + FILE + second == text && first + "/files/" + "b" + IMAGE + "" == text;
    MadeLink("", "a", FILE, second);
    MadeLink(first, "b", IMAGE, "");
    hide LinkEnd;
    EveryLinkIsMatched(text, FILE, 0, 0);
    EveryLinkIsMatched(text, IMAGE, 0, |first|);
    assert Span(0, |first|) in Matches(text, FILE, 0) && Span(|first|, |text|) in Matches(text, IMAGE, 0);
  }

  lemma {:induction false} NoMatches(text: string, kind: string, i: nat)
    requires i <= |text| && forall j :: i <= j <= |text| ==> LinkEnd(text, j, kind).None?
    ensures Matches(text, kind, i) == []
    decreases |text| - i
  {
    if i < |text| {
      NoMatches(text, kind, i + 1);
    }
  }

  lemma {:induction false} FirstMatch(text: string, kind: string, i: nat, j: nat)
    requires i <= j < |text| && (forall k :: i <= k < j ==> LinkEnd(text, k, kind).None?) && LinkEnd(text, j, kind).Some?
    ensures var end := LinkEnd(text, j, kind).value;
            Matches(text, kind, i) == [Span(j, end)] + Matches(text, kind, end)
    decreases j - i
  {
    if i < j {
      FirstMatch(text, kind, i + 1, j);
    }
  }
}
