/** Header handling shared by both writers and both transports: the
    case-insensitive `content-length` test of `writeHeader`, the conversion
    of the parser's flat `[name, value, name, value, ...]` list into an
    object in `onHeadersComplete`, the body slice of `onBody`, and
    `filterHeadersForUndefined`. */
module Headers {
  import opened Maybe
  import opened Octets
  import opened JsObject

  // ---------------------------------------------------------------- content-length test

  function LowerAscii(c: char): char {
    if 'A' <= c <= 'Z' then (c as int - 'A' as int + 'a' as int) as char else c
  }

  /** `key.toLowerCase()` on the letters that matter here: each upper-case
      ASCII letter becomes its lower-case letter and every other character is
      kept. JavaScript folds every Unicode letter, but no character outside
      ASCII lower-cases to a single letter of "content-length", so folding
      ASCII only decides the comparison below exactly as JavaScript does. */
  function ToLowerAscii(s: string): (r: string)
    ensures |r| == |s|
    ensures forall i :: 0 <= i < |s| ==> !('A' <= r[i] <= 'Z')
    ensures forall i :: 0 <= i < |s| ==>
      r[i] == s[i] || ('A' <= s[i] <= 'Z' && r[i] as int == s[i] as int + 32)
  {
    seq(|s|, i requires 0 <= i < |s| => LowerAscii(s[i]))
  }

  /** `key.toLowerCase() === 'content-length'`. */
  predicate IsContentLength(key: string) {
    ToLowerAscii(key) == ContentLengthKey
  }

  const ContentLengthKey: string := "content-length"

  /** The keys the transports and writers use are recognised as they should be. */
  lemma ContentLengthKeys()
    ensures IsContentLength("Content-Length") && IsContentLength("content-length")
    ensures IsContentLength("CONTENT-LENGTH")
    ensures !IsContentLength("Transfer-Encoding") && !IsContentLength("transfer-encoding")
  {
    assert ToLowerAscii("Content-Length") == "content-length";
    assert ToLowerAscii("CONTENT-LENGTH") == "content-length";
    assert ToLowerAscii("content-length") == "content-length";
    assert ToLowerAscii("Transfer-Encoding")[0] == 't';
    assert ToLowerAscii("transfer-encoding")[0] == 't';
  }

  /** `c` is the lower-case character `lower`, or its upper-case ASCII letter. */
  predicate SameLetter(c: char, lower: char) {
    c == lower || ('a' <= lower <= 'z' && c as int + 32 == lower as int)
  }

  /** A key switches on content-length mode exactly when it spells
      "content-length" with any of its letters in either ASCII case and the
      hyphen as it is. */
  lemma ContentLengthAnyCase(key: string)
    ensures IsContentLength(key) <==>
      |key| == |ContentLengthKey| &&
      forall i :: 0 <= i < |key| ==> SameLetter(key[i], ContentLengthKey[i])
  {
    var t := ToLowerAscii(key);
    if |key| == |ContentLengthKey| {
      if forall i :: 0 <= i < |key| ==> SameLetter(key[i], ContentLengthKey[i]) {
        forall i | 0 <= i < |key|
          ensures t[i] == ContentLengthKey[i]
        {
          if key[i] != ContentLengthKey[i] {
            assert 'A' <= key[i] <= 'Z';
          }
        }
      }
      if IsContentLength(key) {
        forall i | 0 <= i < |key|
          ensures SameLetter(key[i], ContentLengthKey[i])
        {
          assert t[i] == ContentLengthKey[i];
        }
      }
    }
  }

  // ---------------------------------------------------------------- onHeadersComplete

  /** The name of the i-th pair of the parser's flat header list. */
  function KeyAt(raw: seq<string>, i: nat): string
    requires 2 * i + 1 < |raw|
  {
    raw[2 * i]
  }

  function ValueAt(raw: seq<string>, i: nat): string
    requires 2 * i + 1 < |raw|
  {
    raw[2 * i + 1]
  }

  /** The object `onHeadersComplete` builds from an even-length list:
      `headers[name] = value` for each pair in order. */
  function Pairs(raw: seq<string>): Dict<string>
    requires |raw| % 2 == 0
  {
    if raw == [] then []
    else Set(Pairs(raw[..|raw| - 2]), raw[|raw| - 2], raw[|raw| - 1])
  }

  /** The headers of a header list, or None when the list ends in a name
      without a value (the source's `info.headers[i + 1].toString()` then
      throws a TypeError and no headers event is emitted). */
  function HeaderPairs(raw: seq<string>): Option<Dict<string>> {
    if |raw| % 2 == 0 then Some(Pairs(raw)) else None
  }

  /** Dropping the last pair leaves the other pairs where they were. */
  lemma PairsInit(raw: seq<string>)
    requires |raw| >= 2 && |raw| % 2 == 0
    ensures |raw[..|raw| - 2]| / 2 == |raw| / 2 - 1
    ensures forall j :: 0 <= j < |raw| / 2 - 1 ==>
      KeyAt(raw[..|raw| - 2], j) == KeyAt(raw, j) && ValueAt(raw[..|raw| - 2], j) == ValueAt(raw, j)
    ensures KeyAt(raw, |raw| / 2 - 1) == raw[|raw| - 2]
    ensures ValueAt(raw, |raw| / 2 - 1) == raw[|raw| - 1]
  {
  }

  /** A name is present exactly when some pair carries it. */
  lemma {:induction false} PairsHasKey(raw: seq<string>, key: string)
    requires |raw| % 2 == 0
    ensures Get(Pairs(raw), key).Some? <==>
      exists i :: 0 <= i < |raw| / 2 && KeyAt(raw, i) == key
  {
    if raw != [] {
      var n := |raw| / 2 - 1;
      var init := raw[..|raw| - 2];
      PairsHasKey(init, key);
      PairsInit(raw);
      if key != raw[|raw| - 2] {
        if Get(Pairs(init), key).Some? {
          var i :| 0 <= i < n && KeyAt(init, i) == key;
          assert KeyAt(raw, i) == key;
        }
        if exists i :: 0 <= i < |raw| / 2 && KeyAt(raw, i) == key {
          var i :| 0 <= i < |raw| / 2 && KeyAt(raw, i) == key;
          assert i < n && KeyAt(init, i) == key;
        }
      } else {
        assert KeyAt(raw, n) == key;
      }
    }
  }

  /** The property below, for a last pair of another name. */
  lemma LastWinsPastOther(raw: seq<string>, key: string, i: nat)
    requires |raw| >= 2 && |raw| % 2 == 0 && raw[|raw| - 2] != key
    requires i < |raw| / 2 - 1 && KeyAt(raw[..|raw| - 2], i) == key
    requires forall j {:trigger KeyAt(raw[..|raw| - 2], j)} :: i < j < |raw| / 2 - 1 ==> KeyAt(raw[..|raw| - 2], j) != key
    ensures KeyAt(raw, i) == key && ValueAt(raw, i) == ValueAt(raw[..|raw| - 2], i)
    ensures forall j :: i < j < |raw| / 2 ==> KeyAt(raw, j) != key
  {
    PairsInit(raw);
    var init := raw[..|raw| - 2];
    forall j | i < j < |raw| / 2 ensures KeyAt(raw, j) != key {
      if j < |raw| / 2 - 1 {
        assert KeyAt(init, j) != key;
      }
    }
  }

  /** The property below, for the last pair itself. */
  lemma LastPairIsLast(raw: seq<string>, key: string, value: string)
    requires |raw| >= 2 && |raw| % 2 == 0
    requires raw[|raw| - 2] == key && raw[|raw| - 1] == value
    ensures exists i :: (0 <= i < |raw| / 2 && KeyAt(raw, i) == key
      && ValueAt(raw, i) == value
      && forall j :: i < j < |raw| / 2 ==> KeyAt(raw, j) != key)
  {
    var n := |raw| / 2 - 1;
    assert KeyAt(raw, n) == key && ValueAt(raw, n) == value;
  }

  /** The value of a name is the value of the LAST pair with that name: later
      duplicates overwrite earlier ones, nothing is joined. */
  lemma {:induction false} PairsLastWins(raw: seq<string>, key: string)
    requires |raw| >= 2 && |raw| % 2 == 0
    requires Get(Pairs(raw), key).Some?
    ensures exists i :: (0 <= i < |raw| / 2 && KeyAt(raw, i) == key
      && ValueAt(raw, i) == Get(Pairs(raw), key).value
      && forall j :: i < j < |raw| / 2 ==> KeyAt(raw, j) != key)
  {
    var n := |raw| / 2 - 1;
    var init := raw[..|raw| - 2];
    PairsInit(raw);
    assert Pairs(raw) == Set(Pairs(init), raw[|raw| - 2], raw[|raw| - 1]);
    if key == raw[|raw| - 2] {
      assert Get(Pairs(raw), key) == Some(raw[|raw| - 1]);
      LastPairIsLast(raw, key, Get(Pairs(raw), key).value);
    } else {
      assert Get(Pairs(raw), key) == Get(Pairs(init), key);
      assert init != [];
      PairsLastWins(init, key);
      var i :| 0 <= i < n && KeyAt(init, i) == key
        && ValueAt(init, i) == Get(Pairs(init), key).value
        && forall j :: i < j < n ==> KeyAt(init, j) != key;
      LastWinsPastOther(raw, key, i);
    }
  }

  lemma PairsStep(raw: seq<string>, i: nat)
    requires i % 2 == 0 && i + 2 <= |raw|
    ensures Pairs(raw[..i + 2]) == Set(Pairs(raw[..i]), raw[i], raw[i + 1])
  {
    var next := raw[..i + 2];
    assert next[..|next| - 2] == raw[..i];
  }

  /** The loop of `onHeadersComplete`, stepping through the list two at a time. */
  method ResponseHeaders(raw: seq<string>) returns (r: Option<Dict<string>>)
    ensures r == HeaderPairs(raw)
  {
    var headers: Dict<string> := [];
    var i := 0;
    ghost var pairs := 0;
    while i < |raw|
      invariant i == 2 * pairs && i <= |raw| && i % 2 == 0
      invariant headers == Pairs(raw[..i])
    {
      if i + 1 >= |raw| {
        Parity(pairs);
        return None;
      }
      PairsStep(raw, i);
      headers := Set(headers, raw[i], raw[i + 1]);
      i, pairs := i + 2, pairs + 1;
      Parity(pairs);
    }
    assert raw[..i] == raw;
    return Some(headers);
  }

  lemma Parity(n: nat)
    ensures (2 * n) % 2 == 0 && (2 * n + 1) % 2 == 1
  {
  }

  // ---------------------------------------------------------------- onBody

  function Min(a: nat, b: nat): nat {
    if a < b then a else b
  }

  /** `chunk.subarray(offset, offset + length)`: both ends are clamped to the
      chunk, so the slice never reaches past it. */
  function Subarray(chunk: seq<byte>, offset: nat, length: nat): (r: seq<byte>)
    ensures offset + length <= |chunk| ==> r == chunk[offset..offset + length]
    ensures |r| <= length
    ensures offset >= |chunk| ==> r == []
    ensures offset <= |chunk| ==> r == chunk[offset..Min(offset + length, |chunk|)]
  {
    chunk[Min(offset, |chunk|)..Min(offset + length, |chunk|)]
  }

  // ---------------------------------------------------------------- filterHeadersForUndefined

  /** A header value as the transport sees it: `string | string[]`. */
  datatype HeaderValue = One(value: string) | Many(values: seq<string>)

  /** The value of a key that is present and defined. */
  function Defined(v: Option<Option<HeaderValue>>): Option<HeaderValue> {
    if v.Some? && v.value.Some? then Some(v.value.value) else None
  }

  /** The object `filterHeadersForUndefined` returns: the entries whose value
      is not `undefined`, in their order, values unchanged. */
  function FilterDefined(h: Dict<Option<HeaderValue>>): (r: Dict<HeaderValue>)
    ensures forall k {:trigger Get(r, k)} :: Get(r, k) == Defined(Get(h, k))
    ensures |r| <= |h|
  {
    if h == [] then []
    else
      var n := |h| - 1;
      var prefix := FilterDefined(h[..n]);
      assert forall k :: Get(h, k) == if k == h[n].0 then Some(h[n].1) else Get(h[..n], k) by {
        forall k ensures Get(h, k) == if k == h[n].0 then Some(h[n].1) else Get(h[..n], k) {
          GetLast(h, k);
        }
      }
      assert Get(h[..n], h[n].0).None? by {
        GetSpec(h[..n], h[n].0);
        assert forall i :: 0 <= i < n ==> h[..n][i] == h[i];
      }
      if h[n].1.Some? then Set(prefix, h[n].0, h[n].1.value) else prefix
  }

  /** The source's `for...in` loop (every entry of the model is an own property). */
  method FilterHeadersForUndefined(h: Dict<Option<HeaderValue>>) returns (r: Dict<HeaderValue>)
    ensures r == FilterDefined(h)
  {
    r := [];
    for i := 0 to |h|
      invariant DistinctKeys(h[..i])
      invariant r == FilterDefined(h[..i])
    {
      assert h[..i + 1][..i] == h[..i];
      var (key, value) := h[i];
      if value.Some? {
        r := Set(r, key, value.value);
      }
    }
    assert h[..|h|] == h;
  }

  /** Headers as the writers emit them: every value a defined string. */
  function Lifted(h: Dict<string>): (r: Dict<Option<HeaderValue>>)
    ensures Keys(r) == Keys(h)
    ensures forall k {:trigger Get(r, k)} :: Get(r, k) == if Get(h, k).Some? then Some(Some(One(Get(h, k).value))) else None
  {
    var r := seq(|h|, i requires 0 <= i < |h| => (h[i].0, Some(One(h[i].1))));
    assert Keys(r) == Keys(h);
    assert forall k :: Get(r, k) == if Get(h, k).Some? then Some(Some(One(Get(h, k).value))) else None by {
      forall k ensures Get(r, k) == if Get(h, k).Some? then Some(Some(One(Get(h, k).value))) else None {
        GetSpec(h, k);
        GetSpec(r, k);
        if Get(h, k).Some? {
          var j :| 0 <= j < |h| && h[j] == (k, Get(h, k).value);
          GetAt(r, j);
        }
      }
    }
    r
  }

  /** Filtering the headers the writers emit drops nothing and changes no value. */
  lemma FilterKeepsWriterHeaders(h: Dict<string>, key: string)
    ensures Get(FilterDefined(Lifted(h)), key) ==
      if Get(h, key).Some? then Some(One(Get(h, key).value)) else None
  {
  }
}
