/**
 * Best-effort extraction of five string fields from the JSON text of a request
 * body: a bounded scan for a key literal and a bounded copy of the string after it.
 */
module JsonScan {
  import opened Sequences

  const IE_SCAN_MAX: nat := 256
  const IE_KEY_MAX: nat := 14
  const IE_STR_MAX: nat := 32
  const SBI_BODY_MAX: nat := 1024
  const NUL: char := '\0'

  // ----- what the scan and the copy compute -----

  predicate MatchAt(body: string, key: string, i: nat) {
    i + |key| <= |body| && body[i..i + |key|] == key
  }

  /**
   * The scan from position `i` on: the position after the first match, or -1.  It gives up at a
   * position where the window or the key cannot be read.
   */
  function Scan(body: string, key: string, i: nat, readable: nat -> bool): int
    decreases body, IE_SCAN_MAX - i
  {
    if i >= IE_SCAN_MAX || i + |key| > |body| || !readable(i) then -1
    else if MatchAt(body, key, i) then i + |key|
    else Scan(body, key, i + 1, readable)
  }

  predicate ReadableTo(readable: nat -> bool, i: nat, m: nat) {
    forall u: nat :: i <= u <= m ==> readable(u)
  }

  /** A match is an occurrence of the key. */
  lemma MatchIsOccurrence(body: string, key: string, i: nat)
    ensures MatchAt(body, key, i) <==> exists pre, post :: |pre| == i && body == pre + key + post
  {
    if MatchAt(body, key, i) {
      assert body == body[..i] + key + body[i + |key|..];
    }
    if pre, post :| |pre| == i && body == pre + key + post {
      assert (pre + key + post)[i..i + |key|] == key;
    }
  }

  /**
   * The scan returns the end of the least match that starts below 256 and lies inside the body, if it
   * can read so far, else -1.
   */
  lemma {:induction false} ScanFindsLeastMatch(body: string, key: string, i: nat, readable: nat -> bool)
    ensures Scan(body, key, i, readable) < 0 ==>
              && Scan(body, key, i, readable) == -1
              && forall j: nat :: i <= j < 256 && MatchAt(body, key, j) ==> !ReadableTo(readable, i, j)
    ensures Scan(body, key, i, readable) >= 0 ==>
              var m := Scan(body, key, i, readable) - |key|;
              && i <= m < 256 && MatchAt(body, key, m) && ReadableTo(readable, i, m)
              && forall j: nat :: i <= j < m ==> !MatchAt(body, key, j)
    decreases IE_SCAN_MAX - i
  {
    if i < IE_SCAN_MAX && i + |key| <= |body| && readable(i) && !MatchAt(body, key, i) {
      ScanFindsLeastMatch(body, key, i + 1, readable);
      forall j: nat | i <= j < IE_SCAN_MAX && MatchAt(body, key, j) && ReadableTo(readable, i, j)
        ensures ReadableTo(readable, i + 1, j)
      {
      }
    }
  }

  lemma ScanFindsIt(body: string, key: string, m: nat, readable: nat -> bool)
    requires FirstMatchIs(body, key, m, readable)
    ensures Scan(body, key, 0, readable) == m + |key|
  {
    ScanFindsLeastMatch(body, key, 0, readable);
  }

  /** The guard on the position in the extractor never fires after a scan for a key of at most 14 bytes. */
  lemma PositionGuardNeverFires(body: string, key: string, readable: nat -> bool)
    requires |key| <= 14
    ensures Scan(body, key, 0, readable) < 984
  {
    ScanFindsLeastMatch(body, key, 0, readable);
  }

  predicate Blank(c: char) {
    c == ' ' || c == '\t'
  }

  /** At most `k` blanks are skipped. */
  function SkipBlanks(body: string, pos: nat, k: nat): (p: nat)
    ensures pos <= p <= pos + k
    decreases body, k
  {
    if k == 0 || pos >= |body| || !Blank(body[pos]) then pos else SkipBlanks(body, pos + 1, k - 1)
  }

  /** At most `n` characters from `pos`, up to a quote or the end. */
  function Unquoted(body: string, pos: nat, n: nat): (s: string)
    ensures |s| <= n
    decreases body, n
  {
    if n == 0 || pos >= |body| || body[pos] == '"' then [] else [body[pos]] + Unquoted(body, pos + 1, n - 1)
  }

  /** The string value that starts at or shortly after `pos`, cut to 31 characters; nothing if there is none. */
  function StringAt(body: string, pos: nat): (s: string)
    ensures |s| < IE_STR_MAX
  {
    if pos >= SBI_BODY_MAX - IE_STR_MAX - 8 then []
    else
      var p := SkipBlanks(body, pos, 4);
      if p >= |body| || body[p] != '"' then [] else Unquoted(body, p + 1, IE_STR_MAX - 1)
  }

  /** What a field of the event holds, as a function of the body, and of what can be read, alone. */
  function FieldText(body: string, key: string, readable: nat -> bool): (s: string)
    ensures |s| < IE_STR_MAX
  {
    var pos := Scan(body, key, 0, readable);
    if pos < 0 then [] else StringAt(body, pos)
  }

  // ----- round trip with a printer -----

  /** A body with one key and its string value, printed with blanks between them. */
  function Print(pre: string, key: string, blanks: string, value: string, post: string): string {
    pre + key + blanks + ['"'] + value + ['"'] + post
  }

  lemma {:induction false} BlanksAreSkipped(body: string, pos: nat, blanks: string, k: nat)
    requires pos + |blanks| < |body| && body[pos..pos + |blanks|] == blanks && !Blank(body[pos + |blanks|])
    requires AllBlank(blanks)
    ensures SkipBlanks(body, pos, k) == if |blanks| <= k then pos + |blanks| else pos + k
    decreases k
  {
    if blanks != [] && k > 0 {
      assert body[pos] == blanks[0];
      assert body[pos + 1..pos + 1 + |blanks[1..]|] == blanks[1..];
      BlanksAreSkipped(body, pos + 1, blanks[1..], k - 1);
    }
  }

  lemma {:induction false} ValueIsCopied(body: string, pos: nat, value: string, n: nat)
    requires pos + |value| < |body| && body[pos..pos + |value|] == value && body[pos + |value|] == '"'
    requires '"' !in value
    ensures Unquoted(body, pos, n) == if |value| <= n then value else value[..n]
    decreases n
  {
    if value != [] && n > 0 {
      assert body[pos] == value[0];
      assert body[pos + 1..pos + 1 + |value[1..]|] == value[1..];
      ValueIsCopied(body, pos + 1, value[1..], n - 1);
    }
  }

  /** Blanks and then a quoted value stand at `p`. */
  predicate ValueAt(body: string, p: nat, blanks: string, value: string) {
    var q := p + |blanks|;
    && q + 1 + |value| < |body|
    && body[p..q] == blanks && body[q] == '"'
    && body[q + 1..q + 1 + |value|] == value && body[q + 1 + |value|] == '"'
  }

  predicate AllBlank(blanks: string) {
    forall i :: 0 <= i < |blanks| ==> blanks[i] == ' ' || blanks[i] == '\t'
  }

  lemma PrintedParts(pre: string, key: string, blanks: string, value: string, post: string)
    ensures var body := Print(pre, key, blanks, value, post);
            MatchAt(body, key, |pre|) && ValueAt(body, |pre| + |key|, blanks, value)
  {
  }

  /** What the extractor returns for a value after some blanks. */
  function Returned(blanks: string, value: string): string {
    if |blanks| > 4 then [] else if |value| < 32 then value else value[..31]
  }

  lemma StringAfterFewBlanks(body: string, p: nat, blanks: string, value: string)
    requires p < 984 && ValueAt(body, p, blanks, value)
    requires AllBlank(blanks) && '"' !in value && |blanks| <= 4
    ensures StringAt(body, p) == Returned(blanks, value)
  {
    BlanksAreSkipped(body, p, blanks, 4);
    QuotedAt(body, p, p + |blanks|, value);
  }

  /** The value is quoted at `q`, to which the blanks lead. */
  lemma QuotedAt(body: string, p: nat, q: nat, value: string)
    requires p < 984 && SkipBlanks(body, p, 4) == q
    requires ValueAt(body, q, [], value) && '"' !in value
    ensures StringAt(body, p) == if |value| < 32 then value else value[..31]
  {
    ValueIsCopied(body, q + 1, value, IE_STR_MAX - 1);
  }

  lemma NothingAfterManyBlanks(body: string, p: nat, blanks: string, value: string)
    requires p < 984 && ValueAt(body, p, blanks, value)
    requires AllBlank(blanks) && |blanks| > 4
    ensures StringAt(body, p) == Returned(blanks, value)
  {
    BlanksAreSkipped(body, p, blanks, 4);
    assert body[p + 4] == body[p..p + |blanks|][4] == blanks[4];
  }

  lemma StringAfterBlanks(body: string, p: nat, blanks: string, value: string)
    requires p < 984 && ValueAt(body, p, blanks, value)
    requires AllBlank(blanks) && '"' !in value
    ensures StringAt(body, p) == Returned(blanks, value)
  {
    if |blanks| <= 4 {
      StringAfterFewBlanks(body, p, blanks, value);
    } else {
      NothingAfterManyBlanks(body, p, blanks, value);
    }
  }

  /** What is not a quoted string gives nothing, nor does a position at the end of the body's buffer. */
  lemma NothingWithoutQuote(body: string, p: nat, blanks: string)
    requires p + |blanks| < |body| && body[p..p + |blanks|] == blanks && AllBlank(blanks) && |blanks| <= 4
    requires body[p + |blanks|] != ' ' && body[p + |blanks|] != '\t' && body[p + |blanks|] != '"'
    ensures StringAt(body, p) == []
  {
    BlanksAreSkipped(body, p, blanks, 4);
  }

  lemma NothingNearTheEnd(body: string, p: nat)
    requires p >= 984
    ensures StringAt(body, p) == []
  {
  }

  /** The key is first found at `m`, where everything up to it can be read. */
  predicate FirstMatchIs(body: string, key: string, m: nat, readable: nat -> bool) {
    && m < 256 && MatchAt(body, key, m) && ReadableTo(readable, 0, m)
    && forall j: nat :: j < m ==> !MatchAt(body, key, j)
  }

  /**
   * The extractor undoes the printer: when the key first occurs below 256, in memory that can
   * be read, it returns the first 31 characters of the value if at most four blanks come
   * before it, and nothing if more do.
   */
  lemma ExtractionUndoesPrinting(pre: string, key: string, blanks: string, value: string, post: string,
                                 readable: nat -> bool)
    requires |key| <= 14 && |pre| < 256 && ReadableTo(readable, 0, |pre|)
    requires forall j: nat :: j < |pre| ==> !MatchAt(Print(pre, key, blanks, value, post), key, j)
    requires AllBlank(blanks) && '"' !in value
    ensures FieldText(Print(pre, key, blanks, value, post), key, readable) == Returned(blanks, value)
  {
    var body := Print(pre, key, blanks, value, post);
    PrintedParts(pre, key, blanks, value, post);
    FieldOfValue(body, key, |pre|, blanks, value, readable);
  }

  lemma FieldOfValue(body: string, key: string, m: nat, blanks: string, value: string, readable: nat -> bool)
    requires |key| <= IE_KEY_MAX && FirstMatchIs(body, key, m, readable)
    requires ValueAt(body, m + |key|, blanks, value) && AllBlank(blanks) && '"' !in value
    ensures FieldText(body, key, readable) == Returned(blanks, value)
  {
    FieldAfterKey(body, key, m, readable);
    StringAfterBlanks(body, m + |key|, blanks, value);
  }

  lemma FieldAfterKey(body: string, key: string, m: nat, readable: nat -> bool)
    requires FirstMatchIs(body, key, m, readable)
    ensures FieldText(body, key, readable) == StringAt(body, m + |key|)
  {
    ScanFindsIt(body, key, m, readable);
  }

  // ----- the program -----

  lemma WindowIsSlice(b: string, n: nat, i: nat, k: nat)
    requires i + k <= n <= |b| && k <= IE_KEY_MAX && i + IE_KEY_MAX <= |b|
    ensures b[..n][i..i + k] == b[i..i + IE_KEY_MAX][..k]
  {
    SliceOfSlice(b, 0, n, i, i + k);
    SliceOfSlice(b, i, i + IE_KEY_MAX, 0, k);
  }

  /** The context that the scan callback works on. */
  class FindKeyCtx {
    const body: array<char>
    const bodyLen: nat
    const key: string
    const keyLen: nat
    var foundPos: int

    constructor (body: array<char>, bodyLen: nat, key: string, keyLen: nat)
      ensures this.body == body && this.bodyLen == bodyLen && this.key == key && this.keyLen == keyLen && foundPos == -1
    {
      this.body, this.bodyLen, this.key, this.keyLen, foundPos := body, bodyLen, key, keyLen, -1;
    }

    /** The body fills its buffer up to `bodyLen`; 14 bytes can be read at the key. */
    ghost predicate Valid()
      reads body
    {
      body.Length == SBI_BODY_MAX && bodyLen <= SBI_BODY_MAX && keyLen <= IE_KEY_MAX <= |key|
    }

    /** `find_key_cb`: compares one window, if it can be read; 1 stops the scan, 0 lets it go on. */
    method FindKeyCb(i: nat, readable: bool) returns (stop: bool)
      requires Valid()
      modifies this`foundPos
      ensures var text, k := body[..bodyLen], key[..keyLen];
              && (stop <==> i >= IE_SCAN_MAX || i + keyLen > bodyLen || !readable || MatchAt(text, k, i))
              && foundPos == if i < IE_SCAN_MAX && readable && MatchAt(text, k, i) then i + keyLen else old(foundPos)
    {
      if i >= IE_SCAN_MAX || i + keyLen > bodyLen {
        return true;
      }
      if !readable {
        return true;
      }
      var window, keyBuf := body[i..i + IE_KEY_MAX], key[..IE_KEY_MAX];
      var matches := true;
      var j := 0;
      while j < IE_KEY_MAX && j < keyLen
        invariant 0 <= j <= keyLen && matches && window[..j] == keyBuf[..j]
      {
        if window[j] != keyBuf[j] {
          matches := false;
          break;
        }
        j := j + 1;
      }
      ghost var text := body[..bodyLen];
      assert body[..][..bodyLen] == text && body[..][i..i + IE_KEY_MAX] == window;
      WindowIsSlice(body[..], bodyLen, i, keyLen);
      assert key[..keyLen] == keyBuf[..keyLen];
      if matches {
        assert MatchAt(text, key[..keyLen], i);
        foundPos := i + keyLen;
        return true;
      }
      assert window[..keyLen][j] != keyBuf[..keyLen][j];
      return false;
    }
  }

  /** `json_find_key`: the bounded loop around the callback. */
  method JsonFindKey(body: array<char>, bodyLen: nat, key: string, keyLen: nat, readable: nat -> bool)
    returns (pos: int)
    requires body.Length == 1024 && bodyLen <= 1024 && keyLen <= 14 <= |key|
    ensures pos == Scan(body[..bodyLen], key[..keyLen], 0, readable)
  {
    var ctx := new FindKeyCtx(body, bodyLen, key, keyLen);
    ghost var text, k := body[..bodyLen], key[..keyLen];
    ghost var result := Scan(text, k, 0, readable);
    var i := 0;
    while i < IE_SCAN_MAX
      invariant 0 <= i <= IE_SCAN_MAX
      invariant ctx.foundPos == -1 && result == Scan(text, k, i, readable)
    {
      var stop := ctx.FindKeyCb(i, readable(i));
      if stop {
        return ctx.foundPos;
      }
      i := i + 1;
    }
    pos := ctx.foundPos;
  }

  /** A field of 32 bytes that holds the text. */
  function Field(s: string): (r: string)
    ensures |s| <= 32 ==> |r| == 32 && s <= r && forall i :: |s| <= i < 32 ==> r[i] == '\0'
  {
    s + seq(if |s| < IE_STR_MAX then IE_STR_MAX - |s| else 0, i => NUL)
  }

  /** `json_extract_str` into a zeroed field: the text, then NULs to the end. */
  method JsonExtractStr(body: array<char>, bodyLen: nat, start: nat, dst: array<char>)
    requires body.Length == SBI_BODY_MAX && bodyLen <= SBI_BODY_MAX
    requires dst != body && dst[..] == Field([])
    modifies dst
    ensures dst[..] == Field(StringAt(body[..bodyLen], start))
  {
    ghost var text := body[..bodyLen];
    if start >= SBI_BODY_MAX - IE_STR_MAX - 8 {
      return;
    }
    var pos := start;
    ghost var skipped := SkipBlanks(text, start, 4);
    for k := 0 to 4
      invariant start <= pos <= start + k && skipped == SkipBlanks(text, pos, 4 - k)
    {
      if pos < bodyLen && (body[pos] == ' ' || body[pos] == '\t') {
        pos := pos + 1;
      }
    }
    assert pos == skipped;
    if pos >= bodyLen || body[pos] != '"' {
      return;
    }
    pos := pos + 1;
    CopyString(body, bodyLen, pos, dst);
  }

  /** The copy loop: 32 turns, of which the last stores nothing. */
  method CopyString(body: array<char>, bodyLen: nat, pos: nat, dst: array<char>)
    requires body.Length == SBI_BODY_MAX && bodyLen <= SBI_BODY_MAX
    requires dst != body && dst[..] == Field([])
    modifies dst
    ensures dst[..] == Field(Unquoted(body[..bodyLen], pos, IE_STR_MAX - 1))
  {
    ghost var text := body[..bodyLen];
    ghost var value := Unquoted(text, pos, IE_STR_MAX - 1);
    var out := 0;
    var i := 0;
    while i < IE_STR_MAX
      invariant 0 <= i <= IE_STR_MAX && out == (if i < IE_STR_MAX then i else IE_STR_MAX - 1)
      invariant out <= |value| && dst[..] == Field(value[..out])
      invariant value[out..] == Unquoted(text, pos + out, IE_STR_MAX - 1 - out)
    {
      if pos + i >= bodyLen {
        break;
      }
      var c := body[pos + i];
      if c == '"' {
        break;
      }
      if out < IE_STR_MAX - 1 {
        assert value[out..][0] == c && value[out..][1..] == value[out + 1..];
        ghost var before := dst[..];
        dst[out] := c;
        assert dst[..] == before[out := c] == Field(value[..out + 1]);
        out := out + 1;
      }
      i := i + 1;
    }
    assert value[out..] == [] && value[..out] == value;
  }

  // ----- the five fields -----

  const SBI_IE_KEY_CNT: nat := 5

  function SbiIeKey(k: nat): string {
    match k
    case 0 => "\"reason\":"
    case 1 => "\"accessType\":"
    case 2 => "\"cause\":"
    case 3 => "\"deregReason\":"
    case _ => "\"nfId\":"
  }

  lemma KeysFit(k: nat)
    ensures |SbiIeKey(k)| <= IE_KEY_MAX
  {
  }

  class EventSbiBody {
    const body: array<char>
    var bodyLen: nat
    const reason: array<char>
    const accessType: array<char>
    const cause: array<char>
    const deregReason: array<char>
    const nfId: array<char>

    /** The record with a captured body, its five fields zeroed. */
    constructor (captured: string)
      requires |captured| <= 1024
      ensures body.Length == 1024 && Valid() && bodyLen == |captured| && body[..bodyLen] == captured
      ensures forall k :: 0 <= k < SBI_IE_KEY_CNT ==> FieldOf(k)[..] == Field([])
      ensures fresh(body) && forall k :: 0 <= k < SBI_IE_KEY_CNT ==> fresh(FieldOf(k))
    {
      body := new char[SBI_BODY_MAX](i => if 0 <= i < |captured| then captured[i] else NUL);
      bodyLen := |captured|;
      reason := new char[IE_STR_MAX](i => NUL);
      accessType := new char[IE_STR_MAX](i => NUL);
      cause := new char[IE_STR_MAX](i => NUL);
      deregReason := new char[IE_STR_MAX](i => NUL);
      nfId := new char[IE_STR_MAX](i => NUL);
    }

    function FieldOf(k: nat): array<char> {
      match k
      case 0 => reason
      case 1 => accessType
      case 2 => cause
      case 3 => deregReason
      case _ => nfId
    }

    ghost predicate Valid()
      reads this
    {
      && body.Length == SBI_BODY_MAX && bodyLen <= SBI_BODY_MAX
      && (forall k :: 0 <= k < SBI_IE_KEY_CNT ==> FieldOf(k) != body)
      && (forall j, k :: 0 <= j < k < SBI_IE_KEY_CNT ==> FieldOf(j) != FieldOf(k))
    }

    /** Fields before `n` hold their texts, the others nothing yet. */
    ghost predicate ParsedTo(text: string, n: nat, readable: nat -> nat -> bool)
      reads reason, accessType, cause, deregReason, nfId
    {
      && (forall k :: 0 <= k < n && k < SBI_IE_KEY_CNT ==>
           FieldOf(k)[..] == Field(FieldText(text, SbiIeKey(k), readable(k))))
      && (forall k :: n <= k < SBI_IE_KEY_CNT ==> FieldOf(k)[..] == Field([]))
    }

    /** `sbi_parse_ies`: each field becomes a function of the body alone, whatever the others hold. */
    method ParseIes(readable: nat -> nat -> bool)
      requires Valid() && ParsedTo(body[..bodyLen], 0, readable)
      modifies reason, accessType, cause, deregReason, nfId
      ensures var text := body[..bodyLen];
              && reason[..] == Field(FieldText(text, "\"reason\":", readable(0)))
              && accessType[..] == Field(FieldText(text, "\"accessType\":", readable(1)))
              && cause[..] == Field(FieldText(text, "\"cause\":", readable(2)))
              && deregReason[..] == Field(FieldText(text, "\"deregReason\":", readable(3)))
              && nfId[..] == Field(FieldText(text, "\"nfId\":", readable(4)))
      ensures body[..] == old(body[..])
    {
      ghost var text := body[..bodyLen];
      var k := 0;
      while k < SBI_IE_KEY_CNT
        invariant 0 <= k <= SBI_IE_KEY_CNT && body[..] == old(body[..]) && body[..bodyLen] == text
        invariant ParsedTo(text, k, readable)
      {
        assert forall j :: 0 <= j < SBI_IE_KEY_CNT && j != k ==> FieldOf(j) != FieldOf(k);
        ParseIe(k, readable(k));
        k := k + 1;
      }
    }

    /** One turn of the loop: find the key, then extract into the field of that key. */
    method ParseIe(k: nat, readable: nat -> bool)
      requires Valid() && k < SBI_IE_KEY_CNT && FieldOf(k)[..] == Field([])
      modifies FieldOf(k)
      ensures FieldOf(k)[..] == Field(FieldText(body[..bodyLen], SbiIeKey(k), readable))
    {
      var key := SbiIeKey(k);
      KeysFit(k);
      var keyMem := key + seq(IE_KEY_MAX, i => NUL);
      assert keyMem[..|key|] == key;
      var pos := JsonFindKey(body, bodyLen, keyMem, |key|, readable);
      if pos >= 0 {
        JsonExtractStr(body, bodyLen, pos, FieldOf(k));
      }
    }
  }
}
