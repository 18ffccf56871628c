/** `ReadMe::update_readme`: the first sentinel block of the README is
    replaced by the freshly rendered map, or the map is appended when there
    is no block. The fixed pattern `(?s)(?m)^# Repo map\n```.*?^::\n```` is
    specified directly: a header at a line start, then the nearest footer at
    a line start after it. */
module Readme {
  import opened Wrappers
  import opened Text
  import opened FileTrees
  import opened Rendering
  import GitIgnore

  /** `lit` occurs in `s` at `i`, compared one character at a time. */
  predicate Matches(s: string, i: nat, lit: string) {
    i + |lit| <= |s| && forall k :: 0 <= k < |lit| ==> s[i + k] == lit[k]
  }

  /** `Matches` is equality of the slice at `i` with `lit`. */
  lemma MatchesIff(s: string, i: nat, lit: string)
    ensures Matches(s, i, lit) <==> i + |lit| <= |s| && s[i..i + |lit|] == lit
  {
    if i + |lit| <= |s| && s[i..i + |lit|] == lit {
      forall k | 0 <= k < |lit| ensures s[i + k] == lit[k] {
        assert s[i + k] == s[i..i + |lit|][k];
      }
    }
  }

  /** `lit` begins at `i`, and `i` is the start of a line (`(?m)^`). */
  predicate LineAt(s: string, i: nat, lit: string) {
    Matches(s, i, lit) && (i == 0 || s[i - 1] == '\n')
  }

  /** Whether a line starting at `p` begins with `lit` depends only on the
      text up to the end of `lit`. */
  lemma LineAtSamePrefix(s: string, t: string, n: nat, p: nat, lit: string)
    requires n <= |s| && n <= |t| && p + |lit| <= n
    requires forall k :: 0 <= k < n ==> s[k] == t[k]
    ensures LineAt(s, p, lit) <==> LineAt(t, p, lit)
  {
  }

  /** The first line start at or after `from` where `lit` begins. */
  function FindLine(s: string, lit: string, from: nat): (r: Option<nat>)
    ensures r.Some? ==> from <= r.value && LineAt(s, r.value, lit)
    decreases |s| - from
  {
    if from + |lit| > |s| then None
    else if LineAt(s, from, lit) then Some(from)
    else FindLine(s, lit, from + 1)
  }

  /** A position where `lit` does not begin a line is passed over. */
  lemma FindLineSkip(s: string, lit: string, from: nat)
    requires from + |lit| <= |s| && !LineAt(s, from, lit)
    ensures FindLine(s, lit, from) == FindLine(s, lit, from + 1)
  {
  }

  /** A position where `lit` begins a line is the one found. */
  lemma FindLineHit(s: string, lit: string, from: nat)
    requires LineAt(s, from, lit)
    ensures FindLine(s, lit, from) == Some(from)
  {
  }

  /** No qualifying line start is skipped: any one at or after `from` is at
      or after the one found. */
  lemma {:induction false} FindLineFirst(s: string, lit: string, from: nat, j: nat)
    requires from <= j && LineAt(s, j, lit)
    ensures FindLine(s, lit, from).Some? && FindLine(s, lit, from).value <= j
    decreases j - from
  {
    if from < j && !LineAt(s, from, lit) {
      FindLineFirst(s, lit, from + 1, j);
    }
  }

  /** A match of the pattern from `i` to the end of a footer starting at `j`. */
  predicate BlockAt(s: string, i: nat, j: nat) {
    LineAt(s, i, Header) && i + |Header| <= j && LineAt(s, j, Footer)
  }

  /** The span `[start, end)` the pattern matches, if any. */
  function FindBlock(s: string): (r: Option<(nat, nat)>)
    ensures r.Some? ==> r.value.0 + |Header| + |Footer| <= r.value.1 <= |s|
  {
    match FindLine(s, Header, 0)
    case None => None
    case Some(i) =>
      match FindLine(s, Footer, i + |Header|)
      case None => None
      case Some(j) => Some((i, j + |Footer|))
  }

  /** `FindBlock` is the regex's match: there is one exactly when some header
      is followed by a footer, and the one found starts at the leftmost such
      header and ends at the nearest footer after it (`.*?` is lazy). */
  lemma FindBlockIsLeftmostShortest(s: string)
    ensures FindBlock(s).Some? <==> exists i, j :: BlockAt(s, i, j)
    ensures FindBlock(s).Some? ==>
      var i, e := FindBlock(s).value.0, FindBlock(s).value.1;
      e >= |Footer| && BlockAt(s, i, e - |Footer|) &&
      (forall i', j' :: BlockAt(s, i', j') ==> i <= i') &&
      (forall j' :: BlockAt(s, i, j') ==> e - |Footer| <= j')
  {
    if FindBlock(s).Some? {
      FindBlockFound(s);
    }
    if exists i: nat, j: nat :: BlockAt(s, i, j) {
      var i': nat, j': nat :| BlockAt(s, i', j');
      FindBlockComplete(s, i', j');
    }
  }

  lemma FindBlockFound(s: string)
    requires FindBlock(s).Some?
    ensures var i, e := FindBlock(s).value.0, FindBlock(s).value.1;
      e >= |Footer| && BlockAt(s, i, e - |Footer|) &&
      (forall i', j' :: BlockAt(s, i', j') ==> i <= i') &&
      (forall j' :: BlockAt(s, i, j') ==> e - |Footer| <= j')
  {
    var h := FindLine(s, Header, 0);
    var f := FindLine(s, Footer, h.value + |Header|);
    assert BlockAt(s, h.value, f.value);
    forall i': nat, j': nat | BlockAt(s, i', j') ensures h.value <= i' {
      FindLineFirst(s, Header, 0, i');
    }
    forall j': nat | BlockAt(s, h.value, j') ensures f.value <= j' {
      FindLineFirst(s, Footer, h.value + |Header|, j');
    }
  }

  lemma FindBlockComplete(s: string, i: nat, j: nat)
    requires BlockAt(s, i, j)
    ensures FindBlock(s).Some?
  {
    FindLineFirst(s, Header, 0, i);
    var h := FindLine(s, Header, 0);
    FindLineFirst(s, Footer, h.value + |Header|, j);
  }

  /** The new README text. */
  function UpdateReadme(doc: string, block: string): string {
    match FindBlock(doc)
    case Some((i, e)) => doc[..i] + block + doc[e..]
    case None => doc + "\n\n" + block
  }

  /** With a block present, only the first one is replaced, and the text
      before and after it is kept. */
  lemma UpdateReplacesFirstBlock(doc: string, block: string, i: nat, j: nat)
    requires BlockAt(doc, i, j)
    requires forall i', j' :: BlockAt(doc, i', j') ==> i <= i'
    requires forall j' :: BlockAt(doc, i, j') ==> j <= j'
    ensures UpdateReadme(doc, block) == doc[..i] + block + doc[j + |Footer|..]
  {
    FirstHeaderFound(doc, i, j);
    FirstFooterFound(doc, i, j);
    FindBlockOf(doc, i, j, j + |Footer|);
  }

  lemma FirstHeaderFound(doc: string, i: nat, j: nat)
    requires BlockAt(doc, i, j)
    requires forall i', j' :: BlockAt(doc, i', j') ==> i <= i'
    ensures FindLine(doc, Header, 0) == Some(i)
  {
    FindLineFirst(doc, Header, 0, i);
    var h := FindLine(doc, Header, 0);
    assert BlockAt(doc, h.value, j);
  }

  lemma FirstFooterFound(doc: string, i: nat, j: nat)
    requires BlockAt(doc, i, j)
    requires forall j' :: BlockAt(doc, i, j') ==> j <= j'
    ensures FindLine(doc, Footer, i + |Header|) == Some(j)
  {
    FindLineFirst(doc, Footer, i + |Header|, j);
    var f := FindLine(doc, Footer, i + |Header|);
    assert BlockAt(doc, i, f.value);
  }

  /** With no block, the map is appended after a blank line and the old text
      is a prefix of the new one. */
  lemma UpdateAppendsWithoutBlock(doc: string, block: string)
    requires forall i, j :: !BlockAt(doc, i, j)
    ensures UpdateReadme(doc, block) == doc + "\n\n" + block
    ensures StartsWith(UpdateReadme(doc, block), doc)
  {
    FindBlockIsLeftmostShortest(doc);
    assert (doc + "\n\n" + block)[..|doc|] == doc;
  }

  // ---------------------------------------------------------------------------
  // Idempotence

  /** One sentinel block and nothing else: the header at the start, the
      footer at the end, and no footer at a line start in between. */
  predicate WellFormedBlock(b: string) {
    |Header| + |Footer| <= |b| && LineAt(b, 0, Header) && LineAt(b, |b| - |Footer|, Footer)
    && forall m :: |Header| <= m < |b| - |Footer| ==> !LineAt(b, m, Footer)
  }

  lemma HeaderFacts()
    ensures |Header| == 14 && |Footer| == 6
    ensures Header[0] == '#' && Header[10] == '\n' && Header[11] == '`' && Header[13] == '`'
    ensures forall k :: 0 <= k < |Header| && k != 10 ==> Header[k] != '\n'
    ensures forall k :: 0 <= k < |Header| ==> Header[k] != ':'
    ensures Footer[0] == ':'
  {
  }

  /** Inside a spliced-in piece, line starts and literals are those of the piece. */
  lemma LineAtShift(s: string, pre: string, b: string, post: string, m: nat, lit: string)
    requires s == pre + b + post
    requires |pre| == 0 || pre[|pre| - 1] == '\n'
    requires m + |lit| <= |b|
    ensures LineAt(s, |pre| + m, lit) <==> LineAt(b, m, lit)
  {
    MatchesIff(s, |pre| + m, lit);
    MatchesIff(b, m, lit);
    var window := s[|pre| + m..|pre| + m + |lit|];
    forall k | 0 <= k < |lit| ensures window[k] == b[m..m + |lit|][k] {
      assert window[k] == (pre + b)[|pre| + m + k];
    }
    assert s[|pre| + m..|pre| + m + |lit|] == b[m..m + |lit|];
    if m > 0 {
      assert s[|pre| + m - 1] == b[m - 1];
    }
  }

  /** `FindLine` finds the first qualifying line start. */
  lemma {:induction false} FindLineIs(s: string, lit: string, from: nat, k: nat)
    requires from <= k && LineAt(s, k, lit)
    requires forall j :: from <= j < k ==> !LineAt(s, j, lit)
    ensures FindLine(s, lit, from) == Some(k)
    decreases k - from
  {
    if from < k {
      FindLineIs(s, lit, from + 1, k);
    }
  }

  /** No header starts a line before position `n`. */
  predicate NoHeaderBefore(s: string, n: nat) {
    forall p :: 0 <= p < n ==> !LineAt(s, p, Header)
  }

  /** A well-formed block spliced in at a line start, with no header at a
      line start before it, holds the header and the footer that are found. */
  lemma FindSplicedBlock(s: string, pre: string, b: string, post: string)
    requires s == pre + b + post
    requires WellFormedBlock(b)
    requires |pre| == 0 || pre[|pre| - 1] == '\n'
    requires NoHeaderBefore(s, |pre|)
    ensures FindLine(s, Header, 0) == Some(|pre|)
    ensures FindLine(s, Footer, |pre| + |Header|) == Some(|pre| + |b| - |Footer|)
  {
    FindSplicedHeader(s, pre, b, post);
    FindSplicedFooter(s, pre, b, post);
  }

  lemma SplicedSlice(s: string, pre: string, b: string, post: string, i: nat)
    requires s == pre + b + post && i == |pre|
    ensures i + |b| <= |s| && s[i..i + |b|] == b
  {
    assert pre + b + post == pre + (b + post);
  }

  /** A text whose found block is already `b` is left as it is. */
  lemma UpdateKeepsFoundBlock(s: string, b: string, i: nat)
    requires |Header| + |Footer| <= |b| && i + |b| <= |s| && s[i..i + |b|] == b
    requires FindLine(s, Header, 0) == Some(i)
    requires FindLine(s, Footer, i + |Header|) == Some(i + |b| - |Footer|)
    ensures UpdateReadme(s, b) == s
  {
    FindBlockOf(s, i, i + |b| - |Footer|, i + |b|);
    assert s[..i] + s[i..i + |b|] + s[i + |b|..] == s;
  }

  /** The block runs from the first header to the end of the nearest footer after it. */
  lemma FindBlockOf(s: string, i: nat, j: nat, e: nat)
    requires FindLine(s, Header, 0) == Some(i)
    requires FindLine(s, Footer, i + |Header|) == Some(j)
    requires e == j + |Footer|
    ensures FindBlock(s) == Some((i, e))
  {
  }

  lemma FindSplicedHeader(s: string, pre: string, b: string, post: string)
    requires s == pre + b + post
    requires |Header| <= |b| && LineAt(b, 0, Header)
    requires |pre| == 0 || pre[|pre| - 1] == '\n'
    requires NoHeaderBefore(s, |pre|)
    ensures FindLine(s, Header, 0) == Some(|pre|)
  {
    LineAtShift(s, pre, b, post, 0, Header);
    FindLineIs(s, Header, 0, |pre|);
  }

  lemma FindSplicedFooter(s: string, pre: string, b: string, post: string)
    requires s == pre + b + post
    requires WellFormedBlock(b)
    requires |pre| == 0 || pre[|pre| - 1] == '\n'
    ensures FindLine(s, Footer, |pre| + |Header|) == Some(|pre| + |b| - |Footer|)
  {
    FindSplicedLine(s, pre, b, post, Footer, |pre| + |Header|, |b| - |Footer|);
  }

  /** Searching a spliced-in piece from `from` finds its first line starting
      with `lit`, at `k` within the piece. */
  lemma {:induction false} FindSplicedLine(s: string, pre: string, b: string, post: string, lit: string, from: nat, k: nat)
    requires s == pre + b + post
    requires |pre| == 0 || pre[|pre| - 1] == '\n'
    requires |pre| <= from <= |pre| + k && k + |lit| <= |b|
    requires LineAt(b, k, lit)
    requires forall m :: from - |pre| <= m < k ==> !LineAt(b, m, lit)
    ensures FindLine(s, lit, from) == Some(|pre| + k)
    decreases |pre| + k - from
  {
    if from < |pre| + k {
      var m := from - |pre|;
      assert !LineAt(b, m, lit);
      LineAtShift(s, pre, b, post, m, lit);
      FindLineSkip(s, lit, from);
      FindSplicedLine(s, pre, b, post, lit, from + 1, k);
    } else {
      LineAtShift(s, pre, b, post, k, lit);
      FindLineHit(s, lit, from);
    }
  }

  /** Updating twice with the same well-formed block is updating once,
      unless the README has a header that no footer closes. */
  lemma UpdateIdempotent(doc: string, b: string)
    requires WellFormedBlock(b)
    requires (exists i, j :: BlockAt(doc, i, j)) || (forall i :: !LineAt(doc, i, Header))
    ensures UpdateReadme(UpdateReadme(doc, b), b) == UpdateReadme(doc, b)
  {
    FindBlockIsLeftmostShortest(doc);
    if FindBlock(doc).Some? {
      IdempotentAfterReplace(doc, b);
    } else {
      IdempotentAfterAppend(doc, b);
    }
  }

  lemma IdempotentAfterReplace(doc: string, b: string)
    requires WellFormedBlock(b)
    requires FindBlock(doc).Some?
    ensures UpdateReadme(UpdateReadme(doc, b), b) == UpdateReadme(doc, b)
  {
    var i, e := FindBlock(doc).value.0, FindBlock(doc).value.1;
    ReplacedBlockFound(doc, b, i, e);
    ReplacedSlice(doc, b, i, e);
    UpdateKeepsFoundBlock(UpdateReadme(doc, b), b, i);
  }

  /** After the replacement, the new block is the one found. */
  lemma ReplacedBlockFound(doc: string, b: string, i: nat, e: nat)
    requires WellFormedBlock(b)
    requires FindBlock(doc) == Some((i, e))
    ensures var s := UpdateReadme(doc, b);
      FindLine(s, Header, 0) == Some(i) && FindLine(s, Footer, i + |Header|) == Some(i + |b| - |Footer|)
  {
    var s := UpdateReadme(doc, b);
    var pre, post := doc[..i], doc[e..];
    assert s == pre + b + post;
    NoHeaderBeforeBlock(doc);
    ReplacedKeepsNoHeader(doc, s, b, i, e);
    FindSplicedBlock(s, pre, b, post);
  }

  /** The replacement puts the block at the start of the old one. */
  lemma ReplacedSlice(doc: string, b: string, i: nat, e: nat)
    requires FindBlock(doc) == Some((i, e))
    ensures var s := UpdateReadme(doc, b); i + |b| <= |s| && s[i..i + |b|] == b
  {
    SplicedSlice(UpdateReadme(doc, b), doc[..i], b, doc[e..], i);
  }

  /** Putting a block that starts with the header in place of one that
      does keeps every line before it free of headers. */
  lemma ReplacedKeepsNoHeader(doc: string, s: string, b: string, i: nat, e: nat)
    requires i + |Header| <= e <= |doc| && |Header| <= |b|
    requires s == doc[..i] + b + doc[e..]
    requires LineAt(doc, i, Header) && LineAt(b, 0, Header)
    requires NoHeaderBefore(doc, i)
    ensures NoHeaderBefore(s, i)
  {
    forall k | 0 <= k < i + |Header| ensures s[k] == doc[k] {
      if k >= i {
        assert s[k] == b[k - i];
        assert doc[i + (k - i)] == Header[k - i] == b[0 + (k - i)];
      }
    }
    forall p | 0 <= p < i ensures !LineAt(s, p, Header) {
      LineAtSamePrefix(s, doc, i + |Header|, p, Header);
    }
  }

  /** A header cannot span the blank line written before an appended block. */
  lemma NoHeaderAcrossBlankLine(s: string, n: nat, p: nat)
    requires n + 2 <= |s| && s[n] == '\n' && s[n + 1] == '\n'
    requires p < n + 2 && n < p + |Header|
    ensures !Matches(s, p, Header)
  {
    HeaderFacts();
    if p + |Header| <= |s| {
      if p == n + 1 {
        assert s[p + 0] != Header[0];
      } else if p + 13 == n {
        assert s[p + 13] != Header[13];
      } else if n - p == 10 {
        assert s[p + 11] != Header[11];
      } else {
        assert s[p + (n - p)] != Header[n - p];
      }
    }
  }

  /** No header starts a line before the block found. */
  lemma NoHeaderBeforeBlock(doc: string)
    requires FindBlock(doc).Some?
    ensures NoHeaderBefore(doc, FindBlock(doc).value.0)
  {
    forall p | 0 <= p < FindBlock(doc).value.0 ensures !LineAt(doc, p, Header) {
      if LineAt(doc, p, Header) {
        FindLineFirst(doc, Header, 0, p);
      }
    }
  }

  lemma IdempotentAfterAppend(doc: string, b: string)
    requires WellFormedBlock(b)
    requires forall i :: !LineAt(doc, i, Header)
    ensures UpdateReadme(UpdateReadme(doc, b), b) == UpdateReadme(doc, b)
  {
    NoHeaderNoBlock(doc);
    AppendedKeepsNoHeader(doc, b);
    AppendedBlockFound(doc, b);
    IdempotentWhenAppended(doc, b);
  }

  lemma IdempotentWhenAppended(doc: string, b: string)
    requires WellFormedBlock(b)
    requires FindBlock(doc).None?
    requires var s, i := UpdateReadme(doc, b), |doc| + 2;
      FindLine(s, Header, 0) == Some(i) && FindLine(s, Footer, i + |Header|) == Some(i + |b| - |Footer|)
    ensures UpdateReadme(UpdateReadme(doc, b), b) == UpdateReadme(doc, b)
  {
    AppendedSlice(doc, b);
    UpdateKeepsFoundBlock(UpdateReadme(doc, b), b, |doc| + 2);
  }

  /** The append puts the block after the old text and the blank line. */
  lemma AppendedSlice(doc: string, b: string)
    requires FindBlock(doc).None?
    ensures var s := UpdateReadme(doc, b); |doc| + 2 + |b| <= |s| && s[|doc| + 2..|doc| + 2 + |b|] == b
  {
    SplicedSlice(UpdateReadme(doc, b), doc + "\n\n", b, "", |doc| + 2);
  }

  /** Without a header there is no block. */
  lemma NoHeaderNoBlock(doc: string)
    requires forall i :: !LineAt(doc, i, Header)
    ensures FindBlock(doc).None?
  {
    assert FindLine(doc, Header, 0).None?;
  }

  /** Appending after a blank line adds no header before the new block. */
  lemma AppendedKeepsNoHeader(doc: string, b: string)
    requires forall i :: !LineAt(doc, i, Header)
    requires FindBlock(doc).None?
    ensures NoHeaderBefore(UpdateReadme(doc, b), |doc| + 2)
  {
    var s := UpdateReadme(doc, b);
    assert s == doc + "\n\n" + b;
    forall p | 0 <= p < |doc| + 2 ensures !LineAt(s, p, Header) {
      if p + |Header| <= |doc| {
        LineAtSamePrefix(s, doc, |doc|, p, Header);
      } else {
        NoHeaderAcrossBlankLine(s, |doc|, p);
      }
    }
  }

  /** After the append, the new block is the one found. */
  lemma AppendedBlockFound(doc: string, b: string)
    requires WellFormedBlock(b)
    requires FindBlock(doc).None?
    requires NoHeaderBefore(UpdateReadme(doc, b), |doc| + 2)
    ensures var s, i := UpdateReadme(doc, b), |doc| + 2;
      FindLine(s, Header, 0) == Some(i) && FindLine(s, Footer, i + |Header|) == Some(i + |b| - |Footer|)
  {
    var s := UpdateReadme(doc, b);
    var pre := doc + "\n\n";
    assert s == pre + b + "";
    FindSplicedBlock(s, pre, b, "");
  }

  /** Without the precondition the property fails: a README holding only an
      unterminated header gets the block appended on the first run; on the
      second run the old header and the new footer form one match, so
      everything from the old header on is replaced and the text shrinks to
      the block alone. */
  lemma UnterminatedHeaderNotIdempotent(doc: string, b: string)
    requires doc == Header && WellFormedBlock(b)
    ensures UpdateReadme(doc, b) == doc + "\n\n" + b
    ensures UpdateReadme(UpdateReadme(doc, b), b) == b
    ensures UpdateReadme(UpdateReadme(doc, b), b) != UpdateReadme(doc, b)
  {
    assert FindLine(doc, Footer, |Header|).None?;
    var once := doc + "\n\n" + b;
    assert UpdateReadme(doc, b) == once;
    assert LineAt(once, 0, Header) by {
      MatchesIff(once, 0, Header);
      assert once[0..|Header|] == Header;
    }
    assert FindLine(once, Header, 0) == Some(0);
    AppendedFooterCloses(once, b);
    FindBlockOf(once, 0, |once| - |Footer|, |once|);
    assert UpdateReadme(once, b) == once[..0] + b + once[|once|..];
    assert once[..0] + b + once[|once|..] == b;
  }

  /** After the append, the nearest footer after the old header is the new block's. */
  lemma AppendedFooterCloses(once: string, b: string)
    requires WellFormedBlock(b) && once == Header + "\n\n" + b
    ensures FindLine(once, Footer, |Header|) == Some(|once| - |Footer|)
  {
    var nl := "\n\n";
    var pre := Header + nl;
    assert once == pre + b + "";
    BlockStartsWithoutColon(b);
    forall m | 0 <= m < |b| - |Footer| ensures !LineAt(b, m, Footer) {
      if m < |Header| {
        NoFooterAt(b, m);
      }
    }
    var h := |Header|;
    assert |pre| == h + 2;
    FindSplicedLine(once, pre, b, "", Footer, h + 2, |b| - |Footer|);
    assert once[h] == nl[0] && once[h + 1] == nl[1];
    NoFooterAt(once, h);
    NoFooterAt(once, h + 1);
    FindLineSkip(once, Footer, h);
    FindLineSkip(once, Footer, h + 1);
    assert h + 1 + 1 == h + 2;
  }

  lemma BlockStartsWithoutColon(b: string)
    requires |Header| <= |b| && LineAt(b, 0, Header)
    ensures forall m :: 0 <= m < |Header| ==> b[m] != ':'
  {
    HeaderFacts();
    MatchesIff(b, 0, Header);
    forall m | 0 <= m < |Header| ensures b[m] != ':' {
      assert b[m] == b[..|Header|][m];
    }
  }

  lemma NoFooterAt(s: string, j: nat)
    requires j < |s| && s[j] != ':'
    ensures !LineAt(s, j, Footer)
  {
    HeaderFacts();
  }

  // ---------------------------------------------------------------------------
  // The rendered map is a well-formed block

  lemma {:induction false} JoinNoColonAtLineStart(ls: seq<string>)
    requires forall l :: l in ls ==> '\n' !in l && l != [] && l[0] != ':'
    ensures forall k ::
              0 <= k < |Join(ls, "\n")| && (k == 0 || Join(ls, "\n")[k - 1] == '\n') ==> Join(ls, "\n")[k] != ':'
  {
    var s := Join(ls, "\n");
    if |ls| == 1 {
      assert ls[0] in ls;
    } else if |ls| > 1 {
      assert ls[0] in ls;
      var rest := Join(ls[1..], "\n");
      JoinNoColonAtLineStart(ls[1..]);
      assert s == ls[0] + "\n" + rest;
      forall k | 0 <= k < |s| && (k == 0 || s[k - 1] == '\n') ensures s[k] != ':' {
        if k > |ls[0]| {
          var k' := k - |ls[0]| - 1;
          assert s[k] == rest[k'];
          if k' > 0 {
            assert s[k - 1] == rest[k' - 1];
          }
        }
      }
    }
  }

  lemma {:induction false} JoinNoNewlineIsSingleLine(ls: seq<string>)
    requires |ls| == 1 && '\n' !in ls[0]
    ensures '\n' !in Join(ls, "\n")
  {
  }

  /** Every drawn line is a single non-empty line that starts with a guide
      or a connector, never with a colon. */
  lemma MapLinesStartWell(t: FileTree)
    requires TreeNamesAvoid(t, '\n')
    ensures forall l :: l in Lines(t, "") ==> '\n' !in l && l != [] && l[0] != ':'
  {
    LinesShape(t, "");
    LinesAvoid(t, "", '\n');
    forall l | l in Lines(t, "") ensures l != [] && l[0] != ':' {
      ShapedStart(l);
    }
  }

  lemma ShapedStart(l: string)
    requires ShapedBelow(l, "")
    ensures l != [] && l[0] != ':'
  {
    assert l[0] == l[..4][0];
  }

  /** The rendered map of a tree whose names are single lines is one
      well-formed sentinel block. */
  lemma RenderWellFormed(t: FileTree)
    requires TreeNamesAvoid(t, '\n')
    ensures WellFormedBlock(RenderText(t))
  {
    HeaderFacts();
    var ls := Lines(t, "");
    MapLinesStartWell(t);
    JoinNoColonAtLineStart(ls);
    var J := Join(ls, "\n");
    var b := RenderText(t);
    assert b == Header + "\n" + J + "\n" + Footer;
    assert LineAt(b, 0, Header) by {
      MatchesIff(b, 0, Header);
      assert b[0..|Header|] == Header;
    }
    assert LineAt(b, |b| - |Footer|, Footer) by {
      MatchesIff(b, |b| - |Footer|, Footer);
      assert b[|b| - |Footer|..|b|] == Footer;
    }
    forall m | |Header| <= m < |b| - |Footer| ensures !LineAt(b, m, Footer) {
      if m == |Header| {
        assert b[m - 1] == Header[13];
      } else if m - 15 < |J| {
        assert b[m] == J[m - 15];
        if m > 15 {
          assert b[m - 1] == J[m - 16];
        }
      } else {
        assert b[m] == '\n';
      }
    }
  }

  // ---------------------------------------------------------------------------
  // The replacement as written: `Regex::replace` with a `String` expands
  // `$name`, `${name}` and `$$` in the rendered map

  /** A letter that may continue an unbraced group name. */
  predicate IsNameChar(c: char) {
    '0' <= c <= '9' || 'a' <= c <= 'z' || 'A' <= c <= 'Z' || c == '_'
  }

  /** The length of the longest prefix made of name letters. */
  function NameLength(s: string): (n: nat)
    ensures n <= |s|
    ensures forall k :: 0 <= k < n ==> IsNameChar(s[k])
    ensures n < |s| ==> !IsNameChar(s[n])
  {
    if s != [] && IsNameChar(s[0]) then 1 + NameLength(s[1..]) else 0
  }

  /** The text a reference to the group `name` stands for. The pattern has no
      groups of its own, so only group 0, the whole match, is non-empty; a
      name that parses as the number 0 refers to it. */
  function GroupText(name: string, whole: string): string {
    if ParsesAsZero(name) then whole else ""
  }

  /** `name.parse::<usize>() == Ok(0)`: an optional `+`, then only zeros. */
  predicate ParsesAsZero(name: string) {
    AllZeros(if name != [] && name[0] == '+' then name[1..] else name)
  }

  predicate AllZeros(digits: string) {
    digits != [] && forall k :: 0 <= k < |digits| ==> digits[k] == '0'
  }

  /** Expansion of a replacement string: `$$` is a dollar sign, `${name}` and
      `$name` (the longest run of name letters) are group references, and a
      dollar sign starting neither stays as it is. */
  function Expand(rep: string, whole: string): string
    decreases |rep|
  {
    if rep == [] then []
    else if rep[0] != '$' then [rep[0]] + Expand(rep[1..], whole)
    else if |rep| >= 2 && rep[1] == '$' then "$" + Expand(rep[2..], whole)
    else if |rep| >= 2 && rep[1] == '{' then
      match GitIgnore.IndexOf(rep[2..], '}')
      case Some(k) => GroupText(rep[2..2 + k], whole) + Expand(rep[2 + k + 1..], whole)
      case None => "$" + Expand(rep[1..], whole)
    else
      var n := NameLength(rep[1..]);
      if n == 0 then "$" + Expand(rep[1..], whole)
      else GroupText(rep[1..1 + n], whole) + Expand(rep[1 + n..], whole)
  }

  /** `update_readme` as written: the replaced block is the expansion of the
      rendered map; the appended one is not expanded (`format!`). */
  function UpdateReadmeAsWritten(doc: string, block: string): string {
    match FindBlock(doc)
    case Some((i, e)) => doc[..i] + Expand(block, doc[i..e]) + doc[e..]
    case None => doc + "\n\n" + block
  }

  /** Text without a dollar sign is copied by the expansion. */
  lemma {:induction false} ExpandPlain(pre: string, rest: string, whole: string)
    requires '$' !in pre
    ensures Expand(pre + rest, whole) == pre + Expand(rest, whole)
    decreases |pre|
  {
    if pre != [] {
      assert pre[0] in pre;
      assert (pre + rest)[0] == pre[0] && (pre + rest)[1..] == pre[1..] + rest;
      ExpandPlain(pre[1..], rest, whole);
      calc {
        Expand(pre + rest, whole);
        [pre[0]] + Expand(pre[1..] + rest, whole);
        [pre[0]] + (pre[1..] + Expand(rest, whole));
        { assert pre == [pre[0]] + pre[1..]; }
        pre + Expand(rest, whole);
      }
    } else {
      assert pre + rest == rest;
    }
  }

  lemma {:induction false} NameLengthOf(name: string, post: string)
    requires forall k :: 0 <= k < |name| ==> IsNameChar(name[k])
    requires post == [] || !IsNameChar(post[0])
    ensures NameLength(name + post) == |name|
    decreases |name|
  {
    if name != [] {
      assert (name + post)[1..] == name[1..] + post;
      NameLengthOf(name[1..], post);
    } else {
      assert name + post == post;
    }
  }

  /** A dollar sign followed by a name other than a run of zeros (group 0)
      is dropped together with the name. */
  lemma DollarNameVanishes(pre: string, name: string, post: string, whole: string)
    requires '$' !in pre && '$' !in post
    requires name != [] && !AllZeros(name)
    requires forall k :: 0 <= k < |name| ==> IsNameChar(name[k])
    requires post == [] || !IsNameChar(post[0])
    ensures Expand(pre + "$" + name + post, whole) == pre + post
  {
    var rest := "$" + name + post;
    assert pre + "$" + name + post == pre + rest;
    ExpandPlain(pre, rest, whole);
    DollarNameExpandsToNothing(name, post, whole);
    ExpandPlainAll(post, whole);
  }

  /** Text without a dollar sign expands to itself. */
  lemma ExpandPlainAll(s: string, whole: string)
    requires '$' !in s
    ensures Expand(s, whole) == s
  {
    ExpandPlain(s, [], whole);
    assert s + [] == s;
  }

  /** The reference `$name` itself, for a name that is not a group. */
  lemma DollarNameExpandsToNothing(name: string, post: string, whole: string)
    requires name != [] && !AllZeros(name)
    requires forall k :: 0 <= k < |name| ==> IsNameChar(name[k])
    requires post == [] || !IsNameChar(post[0])
    ensures Expand("$" + name + post, whole) == Expand(post, whole)
  {
    var rep := "$" + name + post;
    NameLengthOf(name, post);
    assert rep[1..] == name + post;
    assert rep[1..1 + |name|] == name;
    assert rep[1 + |name|..] == post;
    assert rep[0] == '$' && rep[1] == name[0];
    assert !ParsesAsZero(name) by {
      assert IsNameChar(name[0]) && name[0] != '+';
    }
  }


  /** The line of a file `posts.$slug.tsx` loses `$slug` in the expansion. */
  lemma ExpandDropsSlug(whole: string)
    ensures Expand(Header + "\n" + Elbow + "posts.$slug.tsx" + "\n" + Footer, whole)
         == Header + "\n" + Elbow + "posts..tsx" + "\n" + Footer
  {
    var pre := Header + "\n" + Elbow + "posts.";
    var post := ".tsx" + "\n" + Footer;
    NoDollarInFrame(pre, post);
    assert Header + "\n" + Elbow + "posts.$slug.tsx" + "\n" + Footer == pre + "$" + "slug" + post by {
      assert "posts.$slug.tsx" == "posts." + "$" + "slug" + ".tsx";
    }
    assert !AllZeros("slug") by { assert "slug"[0] != '0'; }
    DollarNameVanishes(pre, "slug", post, whole);
    assert pre + post == Header + "\n" + Elbow + "posts..tsx" + "\n" + Footer by {
      assert "posts..tsx" == "posts." + ".tsx";
    }
  }

  lemma NoDollarInFrame(pre: string, post: string)
    requires pre == Header + "\n" + Elbow + "posts."
    requires post == ".tsx" + "\n" + Footer
    ensures '$' !in pre && '$' !in post
  {
  }

  /** A file `posts.$slug.tsx`, drawn into a README that already holds a
      block, loses `$slug` as written: the README shows `posts..tsx`. */
  lemma DollarInFileNameIsLost(doc: string, name: string)
    requires FindBlock(doc).Some?
    requires name == "posts.$slug.tsx"
    ensures var block := RenderText(FileTree(map[name := FileTree(map[])]));
      var i, e := FindBlock(doc).value.0, FindBlock(doc).value.1;
      UpdateReadmeAsWritten(doc, block) == doc[..i] + Header + "\n" + Elbow + "posts..tsx" + "\n" + Footer + doc[e..]
      && UpdateReadme(doc, block) == doc[..i] + block + doc[e..]
      && UpdateReadmeAsWritten(doc, block) != UpdateReadme(doc, block)
  {
    var i, e := FindBlock(doc).value.0, FindBlock(doc).value.1;
    RenderSingleFile(name);
    ExpandDropsSlug(doc[i..e]);
  }

  /** For a map without dollar signs the two agree. */
  lemma AsWrittenAgreesWithoutDollar(doc: string, block: string)
    requires '$' !in block
    ensures UpdateReadmeAsWritten(doc, block) == UpdateReadme(doc, block)
  {
    if FindBlock(doc).Some? {
      var i, e := FindBlock(doc).value.0, FindBlock(doc).value.1;
      ExpandPlain(block, [], doc[i..e]);
      assert block + [] == block;
    }
  }
}
