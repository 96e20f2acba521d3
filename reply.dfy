/**
 * What the client makes of the bytes the router sends back: the words `read`
 * pulls off the stream, how it groups them into sentences, how
 * `parseResponse` turns sentences into attribute maps, and the checks the
 * wrappers apply to the result (`!trap` tests, the profile filter, the
 * identity and user-id lookups).
 */
module Reply {
  import opened Wire

  datatype Option<T> = None | Some(value: T)

  // ---------------------------------------------------------------------
  // Words off the stream
  // ---------------------------------------------------------------------

  /**
   * The words `read` takes from stream `s` starting at `pos`, up to the first
   * word whose decoded length is 0, and the cursor after that length prefix.
   * A word is `fread($socket, $length)`: at most `length` bytes, fewer when
   * the stream ends first.
   */
  function ReadWords(s: Bytes, pos: nat): (r: (seq<Bytes>, nat))
    requires pos <= |s|
    ensures pos <= r.1 <= |s|
    ensures pos < |s| ==> pos < r.1
    decreases |s| - pos
  {
    var (len, p) := DecodeLength(s, pos);
    if len == 0 then
      ([], p)
    else
      var q := Skip(s, p, len);
      var (ws, end) := ReadWords(s, q);
      ([s[p..q]] + ws, end)
  }

  /**
   * One pass of the loop in `read`: after the length prefix at `pos` (ending
   * at `p`) and the `len` bytes behind it (ending at `q`), either the reply is
   * over or the word just read comes first, followed by the rest of the reply.
   */
  lemma ReadWordsStep(s: Bytes, pos: nat, len: nat, p: nat, q: nat)
    requires pos <= |s| && (len, p) == DecodeLength(s, pos) && q == Skip(s, p, len)
    ensures len == 0 ==> ReadWords(s, pos) == ([], p)
    ensures len != 0 ==> ReadWords(s, pos) == ([s[p..q]] + ReadWords(s, q).0, ReadWords(s, q).1)
  {
  }

  /**
   * The words `words` lie in `s` from `pos` on the way `ReadWords` walks
   * them: each behind a prefix announcing its length, then a prefix
   * announcing 0 that ends at `end`.
   */
  predicate SentenceAt(s: Bytes, pos: nat, words: seq<Bytes>, end: nat)
    decreases |words|
  {
    && pos <= |s|
    && var (len, p) := DecodeLength(s, pos);
    if |words| == 0 then len == 0 && p == end
    else
      && len == |words[0]| && p + len <= |s|
      && s[p..Skip(s, p, len)] == words[0]
      && SentenceAt(s, Skip(s, p, len), words[1..], end)
  }

  /** Reading a sentence laid out at `pos` gives back exactly its words and stops at its end. */
  lemma {:induction false} ReadLaidOut(s: Bytes, pos: nat, words: seq<Bytes>, end: nat)
    requires forall i :: 0 <= i < |words| ==> |words[i]| > 0
    requires SentenceAt(s, pos, words, end)
    ensures ReadWords(s, pos) == (words, end)
    decreases |words|
  {
    if |words| > 0 {
      var (len, p) := DecodeLength(s, pos);
      var tail := words[1..];
      assert forall i :: 0 <= i < |tail| ==> |tail[i]| > 0 by {
        forall i | 0 <= i < |tail| ensures |tail[i]| > 0 {
          assert tail[i] == words[i + 1];
        }
      }
      ReadLaidOut(s, Skip(s, p, len), tail, end);
      assert [words[0]] + tail == words;
    }
  }

  /** Laying out one more word, ending at `next`, in front of a laid-out sentence. */
  lemma SentenceAtCons(s: Bytes, pos: nat, next: nat, w: Bytes, tail: seq<Bytes>, end: nat)
    requires pos <= |s| && DecodeLength(s, pos).0 == |w|
    requires DecodeLength(s, pos).1 + |w| == next <= |s| && s[next - |w|..next] == w
    requires SentenceAt(s, next, tail, end)
    ensures SentenceAt(s, pos, [w] + tail, end)
  {
    assert Skip(s, DecodeLength(s, pos).1, |w|) == next;
    assert ([w] + tail)[0] == w && ([w] + tail)[1..] == tail;
  }

  /** A slice holding `x + y` holds `x` up to `mid` and then `y`. */
  lemma SliceSplit(s: Bytes, a: nat, mid: nat, b: nat, x: Bytes, y: Bytes)
    requires a <= b <= |s| && s[a..b] == x + y && mid == a + |x|
    ensures mid <= b && s[a..mid] == x && s[mid..b] == y
  {
    assert s[a..mid] == s[a..b][..|x|];
    assert s[mid..b] == s[a..b][|x|..];
  }

  /** A word the client could have written, found between `pos` and `next`, decodes to its own length and bytes. */
  lemma WordLaidOut(s: Bytes, pos: nat, next: nat, w: Bytes)
    requires |w| < WORD_LIMIT
    requires next == pos + |EncodeWord(w)| <= |s| && s[pos..next] == EncodeWord(w)
    ensures DecodeLength(s, pos).0 == |w| && DecodeLength(s, pos).1 + |w| == next
    ensures s[next - |w|..next] == w
  {
    var e := EncodeLength(|w|);
    assert EncodeWord(w) == e + w;
    SliceSplit(s, pos, pos + |e|, next, e, w);
    DecodeEncodedAt(s, pos, |w|);
  }

  /** An encoded sentence between `pos` and `end` is its first word up to `next`, then the rest of the sentence. */
  lemma SentenceHead(s: Bytes, pos: nat, end: nat, words: seq<Bytes>) returns (next: nat)
    requires |words| > 0
    requires end == pos + |EncodeSentence(words)| <= |s| && s[pos..end] == EncodeSentence(words)
    ensures next == pos + |EncodeWord(words[0])| && end == next + |EncodeSentence(words[1..])|
    ensures s[pos..next] == EncodeWord(words[0]) && s[next..end] == EncodeSentence(words[1..])
  {
    next := pos + |EncodeWord(words[0])|;
    EncodeSentenceCons(words);
    SliceSplit(s, pos, next, end, EncodeWord(words[0]), EncodeSentence(words[1..]));
  }

  /** An encoded sentence found between `pos` and `end` is laid out as the reader walks it. */
  lemma {:induction false} SentenceLaidOut(s: Bytes, pos: nat, end: nat, words: seq<Bytes>)
    requires Framable(words)
    requires end == pos + |EncodeSentence(words)| <= |s| && s[pos..end] == EncodeSentence(words)
    ensures SentenceAt(s, pos, words, end)
    decreases |words|
  {
    if |words| == 0 {
      assert s[pos] == EncodeSentence(words)[0];
      assert ByteAt(s, pos) == 0;
    } else {
      var w, tail := words[0], words[1..];
      assert Framable(tail) by {
        forall i | 0 <= i < |tail| ensures 0 < |tail[i]| < WORD_LIMIT {
          assert tail[i] == words[i + 1];
        }
      }
      var next := SentenceHead(s, pos, end, words);
      WordLaidOut(s, pos, next, w);
      SentenceLaidOut(s, next, end, tail);
      SentenceAtCons(s, pos, next, w, tail, end);
      assert [w] + tail == words;
    }
  }

  /**
   * Reading a whole sentence the client itself could have written, found
   * between `pos` and `end`: the words come back unchanged and the cursor
   * stops just after the terminating zero byte, whatever follows it.
   */
  lemma ReadSentenceAt(s: Bytes, pos: nat, end: nat, words: seq<Bytes>)
    requires Framable(words)
    requires end == pos + |EncodeSentence(words)| <= |s| && s[pos..end] == EncodeSentence(words)
    ensures ReadWords(s, pos) == (words, end)
  {
    SentenceLaidOut(s, pos, end, words);
    ReadLaidOut(s, pos, words, end);
  }

  /** The parts of a stream made of three pieces. */
  lemma ThreeParts<T>(a: seq<T>, b: seq<T>, c: seq<T>)
    ensures (a + b + c)[0..|a|] == a
    ensures (a + b + c)[|a|..|a| + |b|] == b
  {
  }

  /** The same, for a sentence with anything before and after it in the stream. */
  lemma ReadEncodedSentence(pre: Bytes, words: seq<Bytes>, rest: Bytes)
    requires Framable(words)
    ensures ReadWords(pre + EncodeSentence(words) + rest, |pre|)
            == (words, |pre| + |EncodeSentence(words)|)
  {
    ThreeParts(pre, EncodeSentence(words), rest);
    ReadSentenceAt(pre + EncodeSentence(words) + rest, |pre|, |pre| + |EncodeSentence(words)|, words);
  }

  /** The same, for a sentence at the very start of the stream. */
  lemma ReadFirstSentence(words: seq<Bytes>, rest: Bytes)
    requires Framable(words)
    ensures ReadWords(EncodeSentence(words) + rest, 0) == (words, |EncodeSentence(words)|)
  {
    ReadEncodedSentence([], words, rest);
    assert [] + EncodeSentence(words) + rest == EncodeSentence(words) + rest;
  }

  // ---------------------------------------------------------------------
  // Grouping words into sentences
  // ---------------------------------------------------------------------

  /** A word that opens a sentence (`!re`, `!done`, `!trap`, ...). */
  predicate IsMarker(w: Bytes)
  {
    |w| > 0 && w[0] == '!'
  }

  /** The sentences of `read` laid end to end. */
  function Flatten(parts: seq<seq<Bytes>>): (ws: seq<Bytes>)
  {
    if |parts| == 0 then [] else Flatten(parts[..|parts| - 1]) + parts[|parts| - 1]
  }

  /**
   * A grouping as `read` promises it: no empty sentence, every sentence after
   * the first starts with a marker, and no marker sits inside a sentence.
   */
  predicate WellSplit(parts: seq<seq<Bytes>>)
  {
    && (forall i :: 0 <= i < |parts| ==> |parts[i]| > 0)
    && (forall i :: 0 < i < |parts| ==> IsMarker(parts[i][0]))
    && (forall i, j :: 0 <= i < |parts| && 0 < j < |parts[i]| ==> !IsMarker(parts[i][j]))
  }

  /** `$response` and `$current` of the loop in `read`. */
  datatype Pending = Pending(response: seq<seq<Bytes>>, current: seq<Bytes>)

  /** `$response` with `$current` appended when it is not empty. */
  function Close(st: Pending): (parts: seq<seq<Bytes>>)
    ensures |parts| >= |st.response|
  {
    if |st.current| > 0 then st.response + [st.current] else st.response
  }

  /** One word through the body of the loop in `read`. */
  function Absorb(st: Pending, w: Bytes): (next: Pending)
    ensures |next.current| > 0
  {
    if IsMarker(w) then Pending(Close(st), [w])
    else Pending(st.response, st.current + [w])
  }

  /** The loop state after the words `ws`, in order. */
  function Gather(ws: seq<Bytes>): (g: Pending)
  {
    if |ws| == 0 then Pending([], [])
    else Absorb(Gather(ws[..|ws| - 1]), ws[|ws| - 1])
  }

  /**
   * The invariant of the loop in `read` after the words `seen`: they are
   * `$response` then `$current` laid end to end, the grouping is well split,
   * and `$current` is empty only before the first word.
   */
  predicate Tracks(g: Pending, seen: seq<Bytes>)
  {
    && Flatten(g.response) + g.current == seen
    && WellSplit(Close(g))
    && (|g.current| == 0 <==> |seen| == 0)
    && (|seen| == 0 ==> |g.response| == 0)
  }

  /** One more word through the loop keeps the invariant. */
  lemma AbsorbTracks(g: Pending, seen: seq<Bytes>, w: Bytes, next: Pending, seen2: seq<Bytes>)
    requires Tracks(g, seen)
    requires next == Absorb(g, w) && seen2 == seen + [w]
    ensures Tracks(next, seen2)
  {
    AbsorbKeepsSplit(g, w);
    AbsorbKeepsWords(g, w);
  }

  /** The last step of `Gather`. */
  lemma GatherLast(ws: seq<Bytes>, init: seq<Bytes>, w: Bytes)
    requires |ws| > 0 && init == ws[..|ws| - 1] && w == ws[|ws| - 1]
    ensures Gather(ws) == Absorb(Gather(init), w) && ws == init + [w]
  {
  }

  /** The state after any words satisfies the loop invariant. */
  lemma {:induction false} GatherInvariant(ws: seq<Bytes>)
    ensures Tracks(Gather(ws), ws)
  {
    if |ws| > 0 {
      GatherInvariant(ws[..|ws| - 1]);
      GatherLast(ws, ws[..|ws| - 1], ws[|ws| - 1]);
      AbsorbTracks(Gather(ws[..|ws| - 1]), ws[..|ws| - 1], ws[|ws| - 1], Gather(ws), ws);
    }
  }

  lemma FlattenSnoc(parts: seq<seq<Bytes>>, last: seq<Bytes>)
    ensures Flatten(parts + [last]) == Flatten(parts) + last
  {
    assert (parts + [last])[..|parts|] == parts;
  }

  /** A marker word closes the open sentence and opens a new one: still well split. */
  lemma MarkerKeepsSplit(done: seq<seq<Bytes>>, w: Bytes, parts: seq<seq<Bytes>>)
    requires WellSplit(done) && IsMarker(w) && parts == done + [[w]]
    ensures WellSplit(parts)
  {
    forall i, j | 0 <= i < |parts| && 0 < j < |parts[i]|
      ensures !IsMarker(parts[i][j])
    {
      assert parts[i] == done[i];
    }
  }

  /** Any other word joins the open sentence: still well split. */
  lemma WordKeepsSplit(response: seq<seq<Bytes>>, current: seq<Bytes>, w: Bytes,
                       before: seq<seq<Bytes>>, parts: seq<seq<Bytes>>)
    requires before == response + [current] && WellSplit(before)
    requires !IsMarker(w) && parts == response + [current + [w]]
    ensures WellSplit(parts)
  {
    forall i | 0 <= i < |parts| ensures |parts[i]| > 0 {
      if i < |response| {
        assert parts[i] == before[i];
      }
    }
    forall i | 0 < i < |parts| ensures IsMarker(parts[i][0]) {
      assert parts[i][0] == before[i][0];
    }
    forall i, j | 0 <= i < |parts| && 0 < j < |parts[i]|
      ensures !IsMarker(parts[i][j])
    {
      if i < |response| {
        assert parts[i] == before[i];
      } else if j < |current| {
        assert parts[i][j] == before[i][j];
      }
    }
  }

  /** A word opening the very first sentence. */
  lemma FirstWordSplit(w: Bytes, parts: seq<seq<Bytes>>)
    requires parts == [[w]]
    ensures WellSplit(parts)
  {
  }

  /** One word through the loop keeps the grouping well split. */
  lemma AbsorbKeepsSplit(g: Pending, w: Bytes)
    requires WellSplit(Close(g))
    requires |g.current| == 0 ==> |g.response| == 0
    ensures WellSplit(Close(Absorb(g, w)))
  {
    if IsMarker(w) {
      MarkerKeepsSplit(Close(g), w, Close(g) + [[w]]);
    } else if |g.current| > 0 {
      WordKeepsSplit(g.response, g.current, w, Close(g), g.response + [g.current + [w]]);
    } else {
      assert g.current + [w] == [w];
      assert g.response + [[w]] == [[w]];
      FirstWordSplit(w, [[w]]);
    }
  }

  /** One word through the loop loses, duplicates and reorders no word. */
  lemma AbsorbKeepsWords(g: Pending, w: Bytes)
    ensures Flatten(Absorb(g, w).response) + Absorb(g, w).current
            == Flatten(g.response) + g.current + [w]
  {
    if IsMarker(w) && |g.current| > 0 {
      FlattenSnoc(g.response, g.current);
    }
  }

  /** The sentences `read` builds from the words `ws`. */
  function Sentences(ws: seq<Bytes>): (parts: seq<seq<Bytes>>)
    ensures |parts| == 0 <==> |ws| == 0
    ensures forall i :: 0 <= i < |parts| ==> |parts[i]| > 0
  {
    GatherInvariant(ws);
    Close(Gather(ws))
  }

  /** No word is lost, duplicated or reordered by the grouping. */
  lemma SentencesFlatten(ws: seq<Bytes>)
    ensures Flatten(Sentences(ws)) == ws
  {
    var g := Gather(ws);
    GatherInvariant(ws);
    if |g.current| > 0 {
      FlattenSnoc(g.response, g.current);
    }
  }

  /** The grouping splits exactly at markers and never yields an empty sentence. */
  lemma SentencesWellSplit(ws: seq<Bytes>)
    ensures WellSplit(Sentences(ws))
    ensures |Sentences(ws)| == 0 <==> |ws| == 0
  {
    GatherInvariant(ws);
    SentencesFlatten(ws);
  }

  /** Words with no marker after the first stay together as one sentence. */
  lemma {:induction false} GatherOne(ws: seq<Bytes>)
    requires |ws| > 0
    requires forall j :: 0 < j < |ws| ==> !IsMarker(ws[j])
    ensures Gather(ws) == Pending([], ws)
  {
    var init := ws[..|ws| - 1];
    GatherLast(ws, init, ws[|ws| - 1]);
    if |ws| > 1 {
      forall j | 0 < j < |init| ensures !IsMarker(init[j]) {
        assert init[j] == ws[j];
      }
      GatherOne(init);
    } else {
      assert |init| == 0;
    }
  }

  /** A reply of one sentence: `read` returns it whole, as a single sentence. */
  lemma SentencesOfOne(ws: seq<Bytes>)
    requires |ws| > 0
    requires forall j :: 0 < j < |ws| ==> !IsMarker(ws[j])
    ensures Sentences(ws) == [ws]
  {
    GatherOne(ws);
  }

  // ---------------------------------------------------------------------
  // What one call of `read` takes from a reply of several sentences
  // ---------------------------------------------------------------------

  /**
   * The router sends each row of a listing (`!re ...`) and the closing
   * `!done` as separate sentences, each ending in a zero byte. One call of
   * `read` stops at the first zero byte: it returns the first sentence only,
   * and the next call, made for the next command, starts on the second.
   */
  lemma ReadStopsAfterFirstSentence(s: Bytes, first: seq<Bytes>, second: seq<Bytes>, rest: Bytes,
                                    mid: nat, end: nat)
    requires Framable(first) && Framable(second)
    requires s == EncodeSentence(first) + EncodeSentence(second) + rest
    requires mid == |EncodeSentence(first)| && end == mid + |EncodeSentence(second)|
    ensures ReadWords(s, 0) == (first, mid)
    ensures ReadWords(s, mid) == (second, end)
  {
    ThreeParts(EncodeSentence(first), EncodeSentence(second), rest);
    ReadSentenceAt(s, 0, mid, first);
    ReadSentenceAt(s, mid, end, second);
  }

  // ---------------------------------------------------------------------
  // parseResponse
  // ---------------------------------------------------------------------

  /** Position of the first `c` in `s`, if there is one. */
  function IndexOf(s: Bytes, c: Octet): (r: Option<nat>)
    ensures r.Some? ==> r.value < |s| && s[r.value] == c && c !in s[..r.value]
    ensures r.None? ==> c !in s
  {
    if |s| == 0 then None
    else if s[0] == c then Some(0)
    else
      var r := IndexOf(s[1..], c);
      if r.None? then None
      else
        assert s[..r.value + 1] == [s[0]] + s[1..][..r.value];
        Some(r.value + 1)
  }

  /** The first `c` in `s` is the one at `i` when none comes before it. */
  lemma {:induction false} IndexOfAt(s: Bytes, c: Octet, i: nat)
    requires i < |s| && s[i] == c && c !in s[..i]
    ensures IndexOf(s, c) == Some(i)
  {
    if i > 0 {
      assert s[0] == s[..i][0];
      assert s[1..][..i - 1] == s[1..i];
      assert forall x :: x in s[1..i] ==> x in s[..i];
      IndexOfAt(s[1..], c, i - 1);
    }
  }

  /**
   * What `parseResponse` makes of one word: a word `=key=value` gives the
   * pair, split at the second `=`; any other word gives nothing.
   */
  function AttrOf(w: Bytes): (r: Option<(Bytes, Bytes)>)
    ensures r.Some? ==> |w| == |r.value.0| + |r.value.1| + 2 && w[0] == '=' && '=' !in r.value.0
  {
    if |w| == 0 || w[0] != '=' then None
    else
      var body := w[1..];
      match IndexOf(body, '=')
      case None => None
      case Some(i) => Some((body[..i], body[i + 1..]))
  }

  /** A sequence rebuilt from its head and its tail cut around position `i`. */
  lemma Rebuild<T>(w: seq<T>, i: nat)
    requires i + 1 < |w|
    ensures w == [w[0]] + w[1..][..i] + [w[1..][i]] + w[1..][i + 1..]
  {
  }

  /** The pieces of a sequence built as `[a] + k + [c] + v`. */
  lemma Pieces<T>(w: seq<T>, a: T, k: seq<T>, c: T, v: seq<T>)
    requires w == [a] + k + [c] + v
    ensures |w| > |k| + 1 && w[0] == a
    ensures w[1..][..|k|] == k && w[1..][|k|] == c && w[1..][|k| + 1..] == v
  {
    assert w[1..] == k + [c] + v;
  }

  /** A word that yields a pair is `=`, key, `=`, value, with no `=` in the key. */
  lemma AttrOfSplits(w: Bytes, k: Bytes, v: Bytes)
    requires AttrOf(w) == Some((k, v))
    ensures w == ['='] + k + ['='] + v && '=' !in k
  {
    Rebuild(w, IndexOf(w[1..], '=').value);
  }

  /** Such a word yields exactly that pair, whatever `=` signs the value holds. */
  lemma AttrOfJoins(w: Bytes, k: Bytes, v: Bytes)
    requires w == ['='] + k + ['='] + v && '=' !in k
    ensures AttrOf(w) == Some((k, v))
  {
    Pieces(w, '=', k, '=', v);
    IndexOfAt(w[1..], '=', |k|);
  }

  /**
   * A word yields the pair `(k, v)` exactly when it is `=`, `k`, `=`, `v`
   * with no `=` inside `k`; the value `v` may hold further `=` signs.
   */
  lemma AttrOfPair(w: Bytes, k: Bytes, v: Bytes)
    ensures AttrOf(w) == Some((k, v)) <==> (w == ['='] + k + ['='] + v && '=' !in k)
  {
    if AttrOf(w) == Some((k, v)) {
      AttrOfSplits(w, k, v);
    }
    if w == ['='] + k + ['='] + v && '=' !in k {
      AttrOfJoins(w, k, v);
    }
  }

  /**
   * A word yields nothing exactly when it does not start with `=` or has no
   * second `=` (`=stats`, `!done`, an empty word).
   */
  lemma AttrOfNothing(w: Bytes)
    ensures AttrOf(w).None? <==> (|w| == 0 || w[0] != '=' || '=' !in w[1..])
  {
  }

  /** The word gives a pair whose key is `k`. */
  predicate HasKey(w: Bytes, k: Bytes)
  {
    AttrOf(w).Some? && AttrOf(w).value.0 == k
  }

  /** `$entry` for one sentence: one key per pair, a later word overwriting an earlier one. */
  function Entry(ws: seq<Bytes>): (m: map<Bytes, Bytes>)
    ensures forall k :: k in m ==> AnyKey(ws, k)
  {
    if |ws| == 0 then map[]
    else
      var m := Entry(ws[..|ws| - 1]);
      match AttrOf(ws[|ws| - 1])
      case None => m
      case Some(kv) => m[kv.0 := kv.1]
  }

  /** Some word of `ws` gives a pair with key `k`. */
  predicate AnyKey(ws: seq<Bytes>, k: Bytes)
    decreases |ws|
  {
    |ws| > 0 && (AnyKey(ws[..|ws| - 1], k) || HasKey(ws[|ws| - 1], k))
  }

  /** `AnyKey` says what its name says: some position holds a word with key `k`. */
  lemma {:induction false} AnyKeyAt(ws: seq<Bytes>, k: Bytes)
    ensures AnyKey(ws, k) <==> exists i :: 0 <= i < |ws| && HasKey(ws[i], k)
  {
    if |ws| > 0 {
      AnyKeyAt(ws[..|ws| - 1], k);
      KeyPositions(ws, ws[..|ws| - 1], k);
    }
  }

  lemma KeyPositions(ws: seq<Bytes>, init: seq<Bytes>, k: Bytes)
    requires |ws| > 0 && init == ws[..|ws| - 1]
    ensures (exists i :: 0 <= i < |ws| && HasKey(ws[i], k))
            <==> (exists i :: 0 <= i < |init| && HasKey(init[i], k)) || HasKey(ws[|ws| - 1], k)
  {
    if exists i :: 0 <= i < |ws| && HasKey(ws[i], k) {
      var i :| 0 <= i < |ws| && HasKey(ws[i], k);
      if i < |init| {
        assert init[i] == ws[i];
      }
    }
    if exists i :: 0 <= i < |init| && HasKey(init[i], k) {
      var i :| 0 <= i < |init| && HasKey(init[i], k);
      assert ws[i] == init[i];
    }
  }

  /** The keys of the entry are exactly the keys of the sentence's `=key=value` words. */
  lemma {:induction false} EntryKeys(ws: seq<Bytes>, k: Bytes)
    ensures k in Entry(ws) <==> exists i :: 0 <= i < |ws| && HasKey(ws[i], k)
  {
    EntryHasAnyKey(ws, k);
    AnyKeyAt(ws, k);
  }

  lemma {:induction false} EntryHasAnyKey(ws: seq<Bytes>, k: Bytes)
    ensures k in Entry(ws) <==> AnyKey(ws, k)
  {
    if |ws| > 0 {
      EntryHasAnyKey(ws[..|ws| - 1], k);
    }
  }

  /** The value under `k` comes from the last word carrying `k`. */
  lemma {:induction false} EntryLastWins(ws: seq<Bytes>, i: nat, k: Bytes, v: Bytes)
    requires i < |ws| && AttrOf(ws[i]) == Some((k, v))
    requires forall j :: i < j < |ws| ==> !HasKey(ws[j], k)
    ensures k in Entry(ws) && Entry(ws)[k] == v
  {
    var init := ws[..|ws| - 1];
    if i < |init| {
      assert forall j :: i < j < |init| ==> !HasKey(init[j], k) by {
        forall j | i < j < |init| ensures !HasKey(init[j], k) {
          assert init[j] == ws[j];
        }
      }
      assert init[i] == ws[i];
      EntryLastWins(init, i, k, v);
      assert !HasKey(ws[|ws| - 1], k);
    }
  }

  /** `parseResponse`: one entry per sentence, sentences whose entry is empty dropped. */
  function ParseResponse(parts: seq<seq<Bytes>>): (rows: seq<map<Bytes, Bytes>>)
    ensures |rows| <= |parts|
    ensures forall i :: 0 <= i < |rows| ==> |rows[i]| > 0
  {
    if |parts| == 0 then []
    else
      var m := Entry(parts[0]);
      (if |m| > 0 then [m] else []) + ParseResponse(parts[1..])
  }

  /** The head and tail of a concatenation with a non-empty left part. */
  lemma ConsAppend<T>(a: seq<T>, b: seq<T>)
    requires |a| > 0
    ensures (a + b)[0] == a[0] && (a + b)[1..] == a[1..] + b
  {
  }

  /** Parsing sentence by sentence: the rows of two replies are the rows of each, in order. */
  lemma {:induction false} ParseResponseAppend(a: seq<seq<Bytes>>, b: seq<seq<Bytes>>)
    ensures ParseResponse(a + b) == ParseResponse(a) + ParseResponse(b)
  {
    if |a| == 0 {
      assert a + b == b;
    } else {
      ConsAppend(a, b);
      ParseResponseAppend(a[1..], b);
    }
  }

  /** Every row is a non-empty entry of some sentence, and there are no more rows than sentences. */
  lemma {:induction false} ParseResponseRows(parts: seq<seq<Bytes>>)
    ensures |ParseResponse(parts)| <= |parts|
    ensures forall r :: r in ParseResponse(parts) ==>
              |r| > 0 && exists i :: 0 <= i < |parts| && Entry(parts[i]) == r
  {
    if |parts| > 0 {
      ParseResponseRows(parts[1..]);
      forall r | r in ParseResponse(parts)
        ensures |r| > 0 && exists i :: 0 <= i < |parts| && Entry(parts[i]) == r
      {
        if r in ParseResponse(parts[1..]) {
          var i :| 0 <= i < |parts[1..]| && Entry(parts[1..][i]) == r;
          assert parts[i + 1] == parts[1..][i];
        } else {
          assert Entry(parts[0]) == r;
        }
      }
    }
  }

  /** A sentence with a `=key=value` word gives a row; a sentence with none gives nothing. */
  lemma ParseResponseSingle(sentence: seq<Bytes>)
    ensures |ParseResponse([sentence])| == 1 <==> exists i :: 0 <= i < |sentence| && AttrOf(sentence[i]).Some?
    ensures |ParseResponse([sentence])| <= 1
  {
    assert [sentence][1..] == [];
    if exists i :: 0 <= i < |sentence| && AttrOf(sentence[i]).Some? {
      var i :| 0 <= i < |sentence| && AttrOf(sentence[i]).Some?;
      EntryKeys(sentence, AttrOf(sentence[i]).value.0);
    } else if |Entry(sentence)| > 0 {
      var k :| k in Entry(sentence);
      EntryKeys(sentence, k);
    }
  }

  // ---------------------------------------------------------------------
  // The `!trap` checks
  // ---------------------------------------------------------------------

  const TRAP: Bytes := "!trap"

  /** `isset($response[0]['!trap'])` on a parsed reply: the first row has a key `!trap`. */
  predicate RowsTrapped(rows: seq<map<Bytes, Bytes>>)
  {
    |rows| > 0 && TRAP in rows[0]
  }

  const DONE: Bytes := "!done"
  const ROW: Bytes := "!re"

  /** The sentence with which the router refuses a command: `!trap` and its message. */
  function TrapSentence(m: Bytes): seq<Bytes>
  {
    [TRAP, "=message=" + m]
  }

  /**
   * A refusal from the router parses to a row without the key `!trap`: the
   * parsed check does not see it.
   */
  lemma TrapReplyUnseen(m: Bytes)
    ensures !RowsTrapped(ParseResponse([TrapSentence(m)]))
  {
    var sentence: seq<Bytes> := TrapSentence(m);
    AttrOfJoins("=message=" + m, "message", m);
    assert AttrOf(sentence[0]).None?;
    assert Entry(sentence[..1]) == map[];
    assert sentence[..|sentence| - 1] == sentence[..1];
    assert Entry(sentence) == map["message" := m];
    assert [sentence][1..] == [];
  }

  /** A one-word sentence whose attribute key is `!trap` itself. */
  function TrapKeySentence(v: Bytes): seq<Bytes>
  {
    ["=!trap=" + v]
  }

  /** The parsed check fires on a word that itself carries the key: `=!trap=...`. */
  lemma TrapKeySeen(v: Bytes)
    ensures RowsTrapped(ParseResponse([TrapKeySentence(v)]))
  {
    var sentence: seq<Bytes> := TrapKeySentence(v);
    AttrOfJoins("=!trap=" + v, TRAP, v);
    assert sentence[..0] == [];
    assert Entry(sentence) == map[TRAP := v];
    assert [sentence][1..] == [];
  }

  /** A sentence without any `=key=value` word: its entry is empty and it gives no row. */
  predicate Bare(ws: seq<Bytes>)
  {
    forall k :: 0 <= k < |ws| ==> AttrOf(ws[k]).None?
  }

  lemma EntryEmpty(ws: seq<Bytes>)
    ensures |Entry(ws)| == 0 <==> Bare(ws)
  {
    if !Bare(ws) {
      var k :| 0 <= k < |ws| && AttrOf(ws[k]).Some?;
      EntryKeys(ws, AttrOf(ws[k]).value.0);
    }
    if |Entry(ws)| > 0 {
      var key :| key in Entry(ws);
      EntryKeys(ws, key);
    }
  }

  /** Some word of the sentence gives a pair with key `key`. */
  predicate CarriesKey(ws: seq<Bytes>, key: Bytes)
  {
    exists k :: 0 <= k < |ws| && HasKey(ws[k], key)
  }

  /** Sentence `i` carries `!trap` and every sentence before it is bare. */
  predicate TrappedAt(parts: seq<seq<Bytes>>, i: nat)
    requires i < |parts|
  {
    (forall j :: 0 <= j < i ==> Bare(parts[j])) && CarriesKey(parts[i], TRAP)
  }

  /** Past a bare first sentence, `TrappedAt` moves one place along. */
  lemma TrappedShift(parts: seq<seq<Bytes>>, i: nat)
    requires 0 < i < |parts| && Bare(parts[0])
    ensures TrappedAt(parts, i) <==> TrappedAt(parts[1..], i - 1)
  {
    assert parts[1..][i - 1] == parts[i];
    assert forall j :: 0 <= j < i - 1 ==> parts[1..][j] == parts[j + 1];
    if TrappedAt(parts[1..], i - 1) {
      forall j | 0 <= j < i ensures Bare(parts[j]) {
        if j > 0 {
          assert parts[j] == parts[1..][j - 1];
        }
      }
    }
  }

  /**
   * The parsed check fires exactly when the first sentence that has any
   * attribute carries a word with the key `!trap`; sentences without
   * attributes before it are skipped, and nothing after it is looked at.
   */
  lemma {:induction false} ParsedTrapIff(parts: seq<seq<Bytes>>)
    ensures RowsTrapped(ParseResponse(parts)) <==> exists i :: 0 <= i < |parts| && TrappedAt(parts, i)
  {
    if |parts| > 0 {
      var first := parts[0];
      EntryEmpty(first);
      EntryKeys(first, TRAP);
      if |Entry(first)| > 0 {
        assert ParseResponse(parts)[0] == Entry(first);
        assert TrappedAt(parts, 0) <==> CarriesKey(first, TRAP);
        if exists i :: 0 <= i < |parts| && TrappedAt(parts, i) {
          var i :| 0 <= i < |parts| && TrappedAt(parts, i);
          assert i == 0;
        }
      } else {
        assert ParseResponse(parts) == ParseResponse(parts[1..]);
        ParsedTrapIff(parts[1..]);
        assert !CarriesKey(first, TRAP);
        if exists i :: 0 <= i < |parts| && TrappedAt(parts, i) {
          var i :| 0 <= i < |parts| && TrappedAt(parts, i);
          TrappedShift(parts, i);
        }
        if exists i :: 0 <= i < |parts[1..]| && TrappedAt(parts[1..], i) {
          var i :| 0 <= i < |parts[1..]| && TrappedAt(parts[1..], i);
          TrappedShift(parts, i + 1);
        }
      }
    }
  }

  /** So the parsed check never fires unless the reply holds a word `=!trap=...`. */
  lemma ParsedTrapNeedsKeyWord(parts: seq<seq<Bytes>>)
    requires RowsTrapped(ParseResponse(parts))
    ensures exists i, k, v :: 0 <= i < |parts| && 0 <= k < |parts[i]| && parts[i][k] == "=!trap=" + v
  {
    ParsedTrapIff(parts);
    var i :| 0 <= i < |parts| && TrappedAt(parts, i);
    var k :| 0 <= k < |parts[i]| && HasKey(parts[i][k], TRAP);
    var v := AttrOf(parts[i][k]).value.1;
    AttrOfSplits(parts[i][k], TRAP, v);
    assert parts[i][k] == "=!trap=" + v;
  }

  /** The decimal digit for `d`. */
  function Digit(d: nat): (c: Octet)
    requires d < 10
    ensures '0' <= c <= '9'
  {
    "0123456789"[d]
  }

  /** `n` in decimal without leading zeros: the only string keys PHP turns into list indexes. */
  function DecimalString(n: nat): (r: Bytes)
    ensures |r| > 0
    ensures forall i :: 0 <= i < |r| ==> '0' <= r[i] <= '9'
  {
    if n < 10 then [Digit(n)] else DecimalString(n / 10) + [Digit(n % 10)]
  }

  /** `isset($list[$key])` for a list of words and a string key. */
  predicate ListIsset(list: seq<Bytes>, key: Bytes)
  {
    exists i :: 0 <= i < |list| && DecimalString(i) == key
  }

  /** `isset($response[0]['!trap'])` on an unparsed reply: a list of words indexed by a string. */
  predicate RawTrapped(raw: seq<seq<Bytes>>)
  {
    |raw| > 0 && ListIsset(raw[0], TRAP)
  }

  /** `!trap` is not a decimal index, so the unparsed check is false for every reply. */
  lemma RawNeverTrapped(raw: seq<seq<Bytes>>)
    ensures !RawTrapped(raw)
  {
    if |raw| > 0 {
      forall i | 0 <= i < |raw[0]| ensures DecimalString(i) != TRAP {
        assert TRAP[0] == '!';
      }
    }
  }

  /** A word's position, written in decimal, does find it. */
  lemma ListIssetIndex(list: seq<Bytes>, i: nat)
    requires i < |list|
    ensures ListIsset(list, DecimalString(i))
  {
  }

  // ---------------------------------------------------------------------
  // Row lookups of the wrappers
  // ---------------------------------------------------------------------

  const ID_KEY: Bytes := ".id"
  const NAME_KEY: Bytes := "name"

  /** A hotspot user profile as `getHotspotProfiles` returns it. */
  datatype Profile = Profile(id: Bytes, name: Bytes)

  /** `isset($profile['.id'], $profile['name'])`. */
  predicate IsProfileRow(row: map<Bytes, Bytes>)
  {
    ID_KEY in row && NAME_KEY in row
  }

  /** The filter of `getHotspotProfiles`: rows with both keys, in order. */
  function ProfileRows(rows: seq<map<Bytes, Bytes>>): (ps: seq<Profile>)
    ensures |ps| <= |rows|
  {
    if |rows| == 0 then []
    else
      var row := rows[0];
      (if IsProfileRow(row) then [Profile(row[ID_KEY], row[NAME_KEY])] else [])
        + ProfileRows(rows[1..])
  }

  /** The filter works row by row: filtering two lists is filtering each, in order. */
  lemma {:induction false} ProfileRowsAppend(a: seq<map<Bytes, Bytes>>, b: seq<map<Bytes, Bytes>>)
    ensures ProfileRows(a + b) == ProfileRows(a) + ProfileRows(b)
  {
    if |a| == 0 {
      assert a + b == b;
    } else {
      ConsAppend(a, b);
      ProfileRowsAppend(a[1..], b);
    }
  }

  /** A profile is listed exactly when some row has both keys with its id and name. */
  lemma {:induction false} ProfileRowsMembers(rows: seq<map<Bytes, Bytes>>, p: Profile)
    ensures p in ProfileRows(rows) <==>
            exists i :: 0 <= i < |rows| && IsProfileRow(rows[i])
                        && p == Profile(rows[i][ID_KEY], rows[i][NAME_KEY])
  {
    if |rows| > 0 {
      ProfileRowsMembers(rows[1..], p);
      if exists i :: 0 <= i < |rows| && IsProfileRow(rows[i])
                     && p == Profile(rows[i][ID_KEY], rows[i][NAME_KEY]) {
        var i :| 0 <= i < |rows| && IsProfileRow(rows[i])
                 && p == Profile(rows[i][ID_KEY], rows[i][NAME_KEY]);
        if i > 0 {
          assert rows[1..][i - 1] == rows[i];
        }
      }
      if p in ProfileRows(rows[1..]) {
        var i :| 0 <= i < |rows[1..]| && IsProfileRow(rows[1..][i])
                 && p == Profile(rows[1..][i][ID_KEY], rows[1..][i][NAME_KEY]);
        assert rows[i + 1] == rows[1..][i];
      }
    }
  }

  /** A row of a listing that carries only an id. */
  function IdRow(id: Bytes): seq<Bytes>
  {
    [ROW, "=.id=" + id]
  }

  /** Such a row parses to the one-entry map from `.id` to the id. */
  lemma IdRowParsed(id: Bytes)
    ensures ParseResponse([IdRow(id)]) == [map[ID_KEY := id]]
  {
    var sentence: seq<Bytes> := IdRow(id);
    AttrOfJoins("=.id=" + id, ID_KEY, id);
    assert AttrOf(sentence[0]).None?;
    assert Entry(sentence[..1]) == map[];
    assert sentence[..|sentence| - 1] == sentence[..1];
    assert Entry(sentence) == map[ID_KEY := id];
    assert [sentence][1..] == [];
  }

  /** PHP's truth value of a string: only `""` and `"0"` are false. */
  predicate Truthy(v: Bytes)
  {
    v != "" && v != "0"
  }

  /**
   * The user id the `remove`/`set` wrappers look up: `$users[0]['.id'] ?? null`,
   * refused when the list is empty or the id is false to PHP.
   */
  function FirstUserId(rows: seq<map<Bytes, Bytes>>): (id: Option<Bytes>)
    ensures id.Some? <==> |rows| > 0 && ID_KEY in rows[0] && Truthy(rows[0][ID_KEY])
    ensures id.Some? ==> id.value == rows[0][ID_KEY]
  {
    if |rows| == 0 then None
    else if ID_KEY in rows[0] && Truthy(rows[0][ID_KEY]) then Some(rows[0][ID_KEY])
    else None
  }

  const DEFAULT_IDENTITY: Bytes := "Uptime"

  /** `$result[0]['name'] ?? 'Uptime'`. */
  function IdentityOf(rows: seq<map<Bytes, Bytes>>): Bytes
  {
    if |rows| > 0 && NAME_KEY in rows[0] then rows[0][NAME_KEY] else DEFAULT_IDENTITY
  }
}
