/**
 * services/src/config_manager.cpp: the remote configuration text, `key=value` pairs separated by
 * semicolons, and its way into the key-value storage.
 */
module ConfigSpec {
  import opened Words
  import opened NvsSpec
  import NvsRuns
  import Crc32Spec

  type Pair = (string, string)

  const NUL: char := '\0'

  /** The size of the pending buffer; its last character stays NUL. */
  const BUFFER: nat := 512

  // ---------------------------------------------------------------- searching

  /** The first position of a character, or the length. */
  function Find(s: string, c: char): (n: nat)
    ensures n <= |s| && c !in s[..n] && (n < |s| ==> s[n] == c)
  {
    if |s| == 0 || s[0] == c then 0 else
      assert forall i | 0 <= i < 1 + Find(s[1..], c) :: s[i] == if i == 0 then s[0] else s[1..][i - 1];
      1 + Find(s[1..], c)
  }

  lemma {:induction false} FindIs(s: string, c: char, n: nat)
    requires n <= |s| && c !in s[..n] && (n < |s| ==> s[n] == c)
    ensures Find(s, c) == n
    decreases |s|
  {
    if n > 0 {
      assert s[0] == s[..n][0];
      assert s[1..][..n - 1] == s[..n][1..];
      FindIs(s[1..], c, n - 1);
    }
  }

  /** The C string at the start of a buffer. */
  function CString(buffer: string): (s: string)
    ensures NUL !in s
  {
    buffer[..Find(buffer, NUL)]
  }

  // ---------------------------------------------------------------- the text

  /** The pair a token stands for; a token without '=' stands for nothing. */
  function PairOf(token: string): seq<Pair> {
    var e := Find(token, '=');
    if e < |token| then [(token[..e], token[e + 1..])] else []
  }

  /** The pairs of a configuration text, in order. */
  function Parse(text: string): seq<Pair>
    decreases |text|
  {
    var n := Find(text, ';');
    PairOf(text[..n]) + if n < |text| then Parse(text[n + 1..]) else []
  }

  function PrintPair(p: Pair): string { p.0 + "=" + p.1 }

  /** The pairs joined into a text. */
  function Print(pairs: seq<Pair>): string {
    if |pairs| == 0 then ""
    else if |pairs| == 1 then PrintPair(pairs[0])
    else PrintPair(pairs[0]) + ";" + Print(pairs[1..])
  }

  /** What the buffer keeps of a text. */
  function Kept(json: string): string { if |json| < BUFFER then json else json[..BUFFER - 1] }

  predicate Printable(p: Pair) {
    '=' !in p.0 && ';' !in p.0 && ';' !in p.1
  }

  // ---------------------------------------------------------------- parsing undoes printing

  lemma PairOfPrinted(p: Pair)
    requires Printable(p)
    ensures PairOf(PrintPair(p)) == [p]
  {
    var t := PrintPair(p);
    assert t[..|p.0|] == p.0 && t[|p.0| + 1..] == p.1;
    FindIs(t, '=', |p.0|);
  }

  lemma ParseToken(token: string, rest: string)
    requires ';' !in token
    ensures Parse(token + ";" + rest) == PairOf(token) + Parse(rest)
    ensures Parse(token) == PairOf(token)
  {
    hide PairOf;
    var t := token + ";" + rest;
    assert t[..|token|] == token && t[|token| + 1..] == rest;
    FindIs(t, ';', |token|);
    FindIs(token, ';', |token|);
    assert token[..|token|] == token;
  }

  lemma {:induction false} ParsePrinted(pairs: seq<Pair>)
    requires forall i | 0 <= i < |pairs| :: Printable(pairs[i])
    ensures Parse(Print(pairs)) == pairs
    decreases |pairs|
  {
    hide Parse, PairOf, PrintPair;
    if |pairs| == 0 {
      ParseNothing();
    } else {
      var p := pairs[0];
      PairOfPrinted(p);
      NoSemicolon(p);
      ParseToken(PrintPair(p), Print(pairs[1..]));
      ParsePrinted(pairs[1..]);
      assert pairs == [p] + pairs[1..];
    }
  }

  lemma ParseNothing()
    ensures Parse("") == []
  {}

  lemma NoSemicolon(p: Pair)
    requires Printable(p)
    ensures ';' !in PrintPair(p)
  {}

  /** Printing what was parsed gives nothing longer. */
  lemma {:induction false} PrintedIsNoLonger(text: string)
    ensures |Print(Parse(text))| <= |text|
    decreases |text|
  {
    hide PairOf;
    var n := Find(text, ';');
    PairIsNoLonger(text[..n]);
    if n < |text| {
      PrintedIsNoLonger(text[n + 1..]);
      JoinedLength(PairOf(text[..n]), Parse(text[n + 1..]));
    }
  }

  lemma PairIsNoLonger(token: string)
    ensures |PairOf(token)| <= 1 && |Print(PairOf(token))| <= |token|
  {}

  lemma JoinedLength(first: seq<Pair>, rest: seq<Pair>)
    requires |first| <= 1
    ensures |Print(first + rest)| <= |Print(first)| + 1 + |Print(rest)|
  {
    if |first| == 0 {
      assert first + rest == rest;
    } else {
      assert (first + rest)[1..] == rest;
    }
  }

  /** A printed list of pairs arrives complete and in order exactly when its text fits the buffer. */
  lemma ArrivesIff(pairs: seq<Pair>)
    requires forall i | 0 <= i < |pairs| :: Printable(pairs[i])
    ensures Parse(Kept(Print(pairs))) == pairs <==> |Print(pairs)| <= 511
  {
    hide Parse, Print;
    ParsePrinted(pairs);
    PrintedIsNoLonger(Kept(Print(pairs)));
  }

  // ---------------------------------------------------------------- into the storage

  /** A C string as stored: its characters and the NUL. */
  function StringBytes(value: string): (b: seq<byte>)
    ensures |b| == |value| + 1
  {
    seq(|value|, i requires 0 <= i < |value| => value[i] as int % 256) + [0]
  }

  /** The storage after setting the pairs one after the other. */
  function StoreAll(s: Store, pairs: seq<Pair>): Store
    decreases |pairs|
  {
    if |pairs| == 0 then s
    else
      var last := pairs[|pairs| - 1];
      WriteEntry(StoreAll(s, pairs[..|pairs| - 1]), last.0, StringBytes(last.1), 1)
  }

  /** The index of the last pair for a key, or -1. */
  function LastOf(pairs: seq<Pair>, key: string): (i: int)
    ensures -1 <= i < |pairs|
    ensures i >= 0 ==> pairs[i].0 == key
    ensures forall j | i < j < |pairs| :: pairs[j].0 != key
    decreases |pairs|
  {
    if |pairs| == 0 then -1
    else if pairs[|pairs| - 1].0 == key then |pairs| - 1
    else LastOf(pairs[..|pairs| - 1], key)
  }

  /** Does setting one key overwrite the metadata or, as metadata, the value of the other? */
  predicate Clobbers(setKey: string, key: string) {
    setKey == MetaKey(key) || MetaKey(setKey) == key
  }

  /** No pair after position i clobbers the key. */
  predicate Unclobbered(pairs: seq<Pair>, key: string, i: int)
    requires -1 <= i
  {
    forall j | i < j < |pairs| :: !Clobbers(pairs[j].0, key)
  }

  /** The last value set for a key is the one read, unless a later pair clobbers it; other keys read as before. */
  lemma {:induction false} LastOneWins(s: Store, pairs: seq<Pair>, key: string, maxLen: nat)
    requires Unclobbered(pairs, key, LastOf(pairs, key))
    ensures var i := LastOf(pairs, key);
      ReadEntry(StoreAll(s, pairs), key, maxLen) ==
        if i < 0 then ReadEntry(s, key, maxLen)
        else if |StringBytes(pairs[i].1)| <= maxLen then Value(StringBytes(pairs[i].1), 1)
        else Failed
    decreases |pairs|
  {
    hide ReadEntry, WriteEntry, StringBytes, MetaKey;
    if |pairs| > 0 {
      var n := |pairs| - 1;
      var before, last := StoreAll(s, pairs[..n]), pairs[n];
      if last.0 == key {
        WriteThenRead(before, key, StringBytes(last.1), 1, maxLen);
      } else {
        LastOneWins(s, pairs[..n], key, maxLen);
        assert pairs[n].0 == last.0;
        NvsRuns.WriteApart(before, last.0, StringBytes(last.1), 1, key);
        NvsRuns.ConsistentAlike(before, WriteEntry(before, last.0, StringBytes(last.1), 1), key);
      }
    }
  }

  // ---------------------------------------------------------------- keys that get in each other's way

  function KeysOf(pairs: seq<Pair>): (keys: seq<string>)
    ensures |keys| == |pairs|
  {
    seq(|pairs|, i requires 0 <= i < |pairs| => pairs[i].0)
  }

  /** Whatever values are set for these keys in this order and whatever was stored: the key reads its last value. */
  ghost predicate AlwaysWins(keys: seq<string>, key: string) {
    forall s: Store, pairs: seq<Pair>, maxLen: nat | KeysOf(pairs) == keys && LastOf(pairs, key) >= 0 :: LastReads(s, pairs, key, maxLen)
  }

  predicate LastReads(s: Store, pairs: seq<Pair>, key: string, maxLen: nat)
    requires LastOf(pairs, key) >= 0
  {
    var value := StringBytes(pairs[LastOf(pairs, key)].1);
    ReadEntry(StoreAll(s, pairs), key, maxLen) == if |value| <= maxLen then Value(value, 1) else Failed
  }

  /** The same keys with empty values. */
  function Blanked(pairs: seq<Pair>): (r: seq<Pair>)
    ensures |r| == |pairs| && forall i | 0 <= i < |r| :: r[i] == (pairs[i].0, "")
  {
    seq(|pairs|, i requires 0 <= i < |pairs| => (pairs[i].0, ""))
  }

  lemma {:induction false} LastOfByKeys(a: seq<Pair>, b: seq<Pair>, key: string)
    requires |a| == |b| && forall i | 0 <= i < |a| :: a[i].0 == b[i].0
    ensures LastOf(a, key) == LastOf(b, key)
    decreases |a|
  {
    if |a| > 0 {
      LastOfByKeys(a[..|a| - 1], b[..|b| - 1], key);
    }
  }

  /** A store in which the key's metadata is an empty string, or its value some other key's metadata. */
  predicate Broken(s: Store, key: string) {
    || (MetaKey(key) in s && s[MetaKey(key)] == Blob([0]))
    || (key in s && s[key].Blob? && |s[key].bytes| == META_SIZE)
  }

  lemma BrokenReads(s: Store, key: string)
    requires Broken(s, key)
    ensures ReadEntry(s, key, 1) != Value([0], 1)
  {
    if MetaKey(key) in s && s[MetaKey(key)] == Blob([0]) {
      assert Record([0])[32..34] == [0, 0];
    }
  }

  /** Setting a key to the empty string: a clobbered key is broken, and stays so while it is not set itself. */
  lemma BlankWriteBreaks(s: Store, setKey: string, key: string)
    requires setKey != key && (Clobbers(setKey, key) || Broken(s, key))
    ensures Broken(WriteEntry(s, setKey, StringBytes(""), 1), key)
  {
    hide Encode, Crc32Spec.Crc;
    OwnerOfMeta(setKey);
    OwnerOfMeta(key);
    assert StringBytes("") == [0];
  }

  lemma {:induction false} BlanksBreak(s: Store, pairs: seq<Pair>, key: string)
    requires LastOf(pairs, key) >= 0 && !Unclobbered(pairs, key, LastOf(pairs, key))
    requires forall i | 0 <= i < |pairs| :: pairs[i].1 == ""
    ensures Broken(StoreAll(s, pairs), key)
    decreases |pairs|
  {
    hide Broken, WriteEntry, StringBytes, Clobbers;
    var n := |pairs| - 1;
    var before := StoreAll(s, pairs[..n]);
    if !Clobbers(pairs[n].0, key) {
      var j :| LastOf(pairs, key) < j < |pairs| && Clobbers(pairs[j].0, key);
      assert Clobbers(pairs[..n][j].0, key);
      BlanksBreak(s, pairs[..n], key);
    }
    BlankWriteBreaks(before, pairs[n].0, key);
  }

  /** Exactly which lists of keys may be set together: those in which no later key clobbers the one in question. */
  lemma AlwaysWinsIff(pairs: seq<Pair>, key: string)
    requires LastOf(pairs, key) >= 0
    ensures AlwaysWins(KeysOf(pairs), key) <==> Unclobbered(pairs, key, LastOf(pairs, key))
  {
    hide LastReads, Clobbers, Broken;
    if Unclobbered(pairs, key, LastOf(pairs, key)) {
      forall s: Store, other: seq<Pair>, maxLen: nat | KeysOf(other) == KeysOf(pairs) && LastOf(other, key) >= 0
        ensures LastReads(s, other, key, maxLen)
      {
        AlikeKeys(pairs, other, key);
        WinsWhenUnclobbered(s, other, key, maxLen);
      }
    } else {
      var blank := Blanked(pairs);
      assert KeysOf(blank) == KeysOf(pairs);
      AlikeKeys(pairs, blank, key);
      BlanksBreak(map[], blank, key);
      BrokenMeansLost(map[], blank, key);
    }
  }

  lemma WinsWhenUnclobbered(s: Store, pairs: seq<Pair>, key: string, maxLen: nat)
    requires LastOf(pairs, key) >= 0 && Unclobbered(pairs, key, LastOf(pairs, key))
    ensures LastReads(s, pairs, key, maxLen)
  {
    LastOneWins(s, pairs, key, maxLen);
  }

  lemma BrokenMeansLost(s: Store, pairs: seq<Pair>, key: string)
    requires LastOf(pairs, key) >= 0 && pairs[LastOf(pairs, key)].1 == "" && Broken(StoreAll(s, pairs), key)
    ensures !LastReads(s, pairs, key, 1)
  {
    hide StoreAll, ReadEntry, Broken;
    BrokenReads(StoreAll(s, pairs), key);
    assert StringBytes("") == [0];
  }

  lemma AlikeKeys(pairs: seq<Pair>, other: seq<Pair>, key: string)
    requires KeysOf(other) == KeysOf(pairs)
    ensures |other| == |pairs| && LastOf(other, key) == LastOf(pairs, key)
    ensures Unclobbered(other, key, LastOf(other, key)) <==> Unclobbered(pairs, key, LastOf(pairs, key))
  {
    hide Clobbers;
    assert |other| == |pairs|;
    forall i | 0 <= i < |pairs| ensures other[i].0 == pairs[i].0 {
      assert KeysOf(other)[i] == KeysOf(pairs)[i];
    }
    LastOfByKeys(other, pairs, key);
  }

  /** A printed list of settings that fits the buffer takes effect: every key that no later key clobbers reads its last value. */
  lemma SettingsTakeEffect(s: Store, pairs: seq<Pair>, key: string, maxLen: nat)
    requires forall i | 0 <= i < |pairs| :: Printable(pairs[i])
    requires |Print(pairs)| < BUFFER && LastOf(pairs, key) >= 0 && Unclobbered(pairs, key, LastOf(pairs, key))
    ensures var value := StringBytes(pairs[LastOf(pairs, key)].1);
      ReadEntry(StoreAll(s, Parse(Kept(Print(pairs)))), key, maxLen)
        == if |value| <= maxLen then Value(value, 1) else Failed
  {
    hide Parse, Print, ReadEntry, StoreAll, StringBytes, Unclobbered;
    ArrivesIff(pairs);
    LastOneWins(s, pairs, key, maxLen);
  }

  /** The text in front of the first NUL, as a caller of getString() sees it. */
  function TextOf(data: seq<byte>): string {
    if |data| == 0 || data[0] == 0 then "" else [data[0] as char] + TextOf(data[1..])
  }

  /** Stored and read back character by character, with a NUL at the end. */
  ghost predicate Spelled(r: ReadResult, value: string) {
    && r.Value? && |r.data| == |value| + 1 && r.data[|value|] == 0
    && forall i | 0 <= i < |value| :: r.data[i] == value[i] as int % 256
  }

  /**
   * What a caller gets: after a printed list that fits the buffer, each key that no later key clobbers reads
   * back the last value set for it, character by character, if the caller's buffer holds the value and its NUL,
   * and nothing otherwise.
   */
  lemma SettingsReadBack(s: Store, pairs: seq<Pair>, key: string, maxLen: nat)
    requires forall i | 0 <= i < |pairs| :: Printable(pairs[i])
    requires |Print(pairs)| < 512 && LastOf(pairs, key) >= 0 && Unclobbered(pairs, key, LastOf(pairs, key))
    ensures var value := pairs[LastOf(pairs, key)].1; var r := ReadEntry(StoreAll(s, Parse(Kept(Print(pairs)))), key, maxLen);
      && (|value| < maxLen ==> Spelled(r, value))
      && (|value| >= maxLen ==> r == Failed)
      && (|value| < maxLen && (forall i | 0 <= i < |value| :: 0 < value[i] as int < 256) ==> TextOf(r.data) == value)
  {
    hide Parse, Print, ReadEntry, StoreAll, Unclobbered;
    var value := pairs[LastOf(pairs, key)].1;
    SettingsTakeEffect(s, pairs, key, maxLen);
    if forall i | 0 <= i < |value| :: 0 < value[i] as int < 256 {
      TextOfString(value);
    }
  }

  lemma {:induction false} TextOfString(value: string)
    requires forall i | 0 <= i < |value| :: 0 < value[i] as int < 256
    ensures TextOf(StringBytes(value)) == value
    decreases |value|
  {
    if |value| > 0 {
      TextOfString(value[1..]);
      assert StringBytes(value)[1..] == StringBytes(value[1..]);
      assert value == [value[0]] + value[1..];
    }
  }

  /** A text that does not take effect: setting `a` stores its metadata over the value of `a_meta`. */
  lemma MetaSettingLost(s: Store, maxLen: nat)
    ensures !Spelled(ReadEntry(StoreAll(s, Parse(Kept("a_meta=x;a=1"))), "a_meta", maxLen), "x")
  {
    hide Parse, ReadEntry, WriteEntry;
    var pairs: seq<Pair> := [("a_meta", "x"), ("a", "1")];
    assert pairs[1..] == [("a", "1")];
    assert Print(pairs) == "a_meta=x;a=1";
    ArrivesIff(pairs);
    var before := StoreAll(s, pairs[..1]);
    assert StoreAll(s, pairs) == WriteEntry(before, "a", StringBytes("1"), 1);
    ValueOverwritten(before, StringBytes("1"), maxLen);
  }

  lemma ValueOverwritten(s: Store, data: seq<byte>, maxLen: nat)
    ensures var r := ReadEntry(WriteEntry(s, "a", data, 1), "a_meta", maxLen); r.Value? ==> |r.data| == META_SIZE
  {
    hide Encode, Decode, Record, Crc32Spec.Crc;
    assert MetaKey("a") == "a_meta";
    assert |"a"| != |"a_meta"|;
    assert WriteEntry(s, "a", data, 1)["a_meta"] == Blob(Encode("a", Metadata(1, |data| % 0x1_0000, Crc32Spec.Crc(data))));
  }
}

/** The manager in place: the tokenizer writes NULs over the separators of the pending buffer. */
module ConfigImpl {
  import opened Words
  import opened NvsSpec
  import opened NvsImpl
  import opened ConfigSpec

  class ConfigManager {
    const pendingJson: array<char>
    var pending: bool
    const nvs: NvsManager
    ghost var notified: seq<string>  // the keys passed to the change callback

    ghost predicate Valid()
      reads this, pendingJson
    {
      pendingJson.Length == BUFFER && pendingJson[BUFFER - 1] == NUL
    }

    constructor (nvs: NvsManager)
      ensures Valid() && this.nvs == nvs && !pending && notified == []
    {
      pendingJson := new char[BUFFER](_ => NUL);
      pending := false;
      this.nvs := nvs;
      notified := [];
    }

    /** strncpy: copy up to the first 511 characters, fill the rest with NULs. */
    method ApplyRemoteConfig(json: string)
      requires Valid() && NUL !in json
      modifies this`pending, pendingJson
      ensures Valid() && pending
      ensures CString(pendingJson[..]) == Kept(json)
    {
      for i := 0 to BUFFER - 1
        invariant pendingJson[BUFFER - 1] == NUL
        invariant forall k | 0 <= k < i :: pendingJson[k] == if k < |json| then json[k] else NUL
      {
        pendingJson[i] := if i < |json| then json[i] else NUL;
      }
      pending := true;
      ghost var text := pendingJson[..];
      assert text[..|Kept(json)|] == Kept(json);
      FindIs(text, NUL, |Kept(json)|);
    }

    /**
     * strtok_r: skip semicolons, then cut off the next token by writing a NUL over its separator.
     * The result is the token's start and the place to go on from, or -1.
     */
    method NextToken(start: nat) returns (token: int, ctx: nat)
      requires Valid() && start < BUFFER
      modifies pendingJson
      ensures Valid() && start <= ctx < BUFFER && pendingJson[ctx..] == old(pendingJson[ctx..])
      ensures token < 0 ==> Parse(old(CString(pendingJson[start..]))) == []
      ensures token >= 0 ==>
        && start <= token < ctx && token + |CString(pendingJson[token..])| <= ctx
        && Parse(old(CString(pendingJson[start..]))) == PairOf(CString(pendingJson[token..])) + Parse(CString(pendingJson[ctx..]))
    {
      hide Parse, PairOf, CString;
      var p := SkipSeparators(start);
      CStringOfNothing(pendingJson[p..]);
      if pendingJson[p] == NUL {
        return -1, p;
      }
      token := p;
      p := EndOfToken(p);
      ghost var buffer := pendingJson[token..];
      TokenCutOff(buffer, p - token);
      if pendingJson[p] == NUL {
        ctx := p;
      } else {
        pendingJson[p] := NUL;
        ctx := p + 1;
      }
      assert pendingJson[token..] == buffer[p - token := NUL];
      assert pendingJson[ctx..] == buffer[ctx - token..];
    }

    method SkipSeparators(start: nat) returns (p: nat)
      requires Valid() && start < BUFFER
      ensures start <= p < BUFFER && pendingJson[p] != ';'
      ensures Parse(CString(pendingJson[start..])) == Parse(CString(pendingJson[p..]))
    {
      hide Parse, CString;
      p := start;
      while pendingJson[p] == ';'
        invariant start <= p < BUFFER
        invariant Parse(CString(pendingJson[start..])) == Parse(CString(pendingJson[p..]))
        decreases BUFFER - p
      {
        SeparatorSkipped(pendingJson[p..]);
        assert pendingJson[p..][1..] == pendingJson[p + 1..];
        p := p + 1;
      }
    }

    method EndOfToken(start: nat) returns (p: nat)
      requires Valid() && start < BUFFER && pendingJson[start] != NUL && pendingJson[start] != ';'
      ensures start < p < BUFFER && (pendingJson[p] == NUL || pendingJson[p] == ';')
      ensures forall i | start <= i < p :: pendingJson[i] != NUL && pendingJson[i] != ';'
    {
      p := start;
      while pendingJson[p] != NUL && pendingJson[p] != ';'
        invariant start <= p < BUFFER
        invariant forall i | start <= i < p :: pendingJson[i] != NUL && pendingJson[i] != ';'
        decreases BUFFER - p
      {
        p := p + 1;
      }
    }

    /** strchr for '=' within the token; -1 when there is none. */
    method FindEquals(token: nat) returns (eq: int)
      requires Valid() && token < BUFFER
      ensures var t := CString(pendingJson[token..]);
        eq == if Find(t, '=') < |t| then token + Find(t, '=') else -1
    {
      var p := token;
      ghost var buffer := pendingJson[token..];
      while pendingJson[p] != NUL && pendingJson[p] != '='
        invariant token <= p < BUFFER
        invariant forall i | 0 <= i < p - token :: buffer[i] != NUL && buffer[i] != '='
        decreases BUFFER - p
      {
        p := p + 1;
      }
      EqualsFound(buffer, p - token);
      eq := if pendingJson[p] == '=' then p else -1;
    }

    method SetString(key: string, value: string) returns (ok: bool)
      modifies nvs`primary, this`notified
      ensures ok && notified == old(notified) + [key]
      ensures nvs.primary == Present(WriteEntry(Entries(old(nvs.primary)), key, StringBytes(value), 1))
    {
      ok := nvs.WriteEntry(key, StringBytes(value), 1);
      if !ok {
        return false;
      }
      notified := notified + [key];
    }

    /** Every pair of the pending text is stored, in order, and announced. */
    method ApplyPending()
      requires Valid()
      modifies this`pending, this`notified, pendingJson, nvs`primary
      ensures Valid() && !pending
      ensures var pairs := Parse(old(CString(pendingJson[..])));
        && notified == old(notified) + KeysOf(pairs)
        && Entries(nvs.primary) == StoreAll(old(Entries(nvs.primary)), pairs)
    {
      hide Parse, PairOf, CString, StoreAll, KeysOf;
      ghost var pairs := Parse(CString(pendingJson[..]));
      ghost var initial := Entries(nvs.primary);
      ghost var done: seq<Pair> := [];
      pending := false;
      assert pendingJson[0..] == old(pendingJson[..]);
      StoreNothing(initial);
      var token, ctx := NextToken(0);
      while token >= 0
        invariant Valid() && ctx < BUFFER && !pending
        invariant token < 0 ==> done == pairs
        invariant token >= 0 ==>
          && token < ctx && token + |CString(pendingJson[token..])| <= ctx
          && done + PairOf(CString(pendingJson[token..])) + Parse(CString(pendingJson[ctx..])) == pairs
        invariant notified == old(notified) + KeysOf(done)
        invariant Entries(nvs.primary) == StoreAll(initial, done)
        decreases BUFFER - ctx, token
      {
        ghost var t := CString(pendingJson[token..]);
        StoreAppend(initial, done, PairOf(t));
        KeysAppend(done, PairOf(t));
        HandleToken(token, ctx);
        done := done + PairOf(t);
        Associate(done, CString(pendingJson[ctx..]), pairs);
        token, ctx := NextToken(ctx);
      }
    }

    /** Split the token at its first '=' and store the pair; a token without '=' is dropped. */
    method HandleToken(token: nat, ghost ctx: nat)
      requires Valid() && token < ctx < BUFFER && token + |CString(pendingJson[token..])| <= ctx
      modifies this`notified, pendingJson, nvs`primary
      ensures Valid() && pendingJson[ctx..] == old(pendingJson[ctx..])
      ensures var found := PairOf(old(CString(pendingJson[token..])));
        && notified == old(notified) + KeysOf(found)
        && Entries(nvs.primary) == StoreAll(old(Entries(nvs.primary)), found)
    {
      hide CString, StoreAll, KeysOf, WriteEntry, StringBytes;
      StoreNothing(Entries(nvs.primary));
      var eq := FindEquals(token);
      if eq < 0 {
        return;
      }
      ghost var buffer := pendingJson[token..];
      CStringTerminated(buffer);
      PairCutOut(buffer, eq - token);
      pendingJson[eq] := NUL;
      assert pendingJson[token..] == buffer[eq - token := NUL];
      assert pendingJson[eq + 1..] == buffer[eq - token := NUL][eq - token + 1..];
      StoreOne(Entries(nvs.primary), CString(pendingJson[token..]), CString(pendingJson[eq + 1..]));
      var ok := SetString(CString(pendingJson[token..]), CString(pendingJson[eq + 1..]));
    }

    method Tick()
      requires Valid()
      modifies this`pending, this`notified, pendingJson, nvs`primary
      ensures Valid() && !pending
      ensures var pairs := if old(pending) then Parse(old(CString(pendingJson[..]))) else [];
        && notified == old(notified) + KeysOf(pairs)
        && Entries(nvs.primary) == StoreAll(old(Entries(nvs.primary)), pairs)
    {
      if pending {
        ApplyPending();
      }
    }
  }

  // ---------------------------------------------------------------- cutting strings out of a buffer

  lemma KeysAppend(a: seq<Pair>, b: seq<Pair>)
    ensures KeysOf(a + b) == KeysOf(a) + KeysOf(b)
  {}

  lemma {:induction false} StoreAppend(s: Store, a: seq<Pair>, b: seq<Pair>)
    ensures StoreAll(s, a + b) == StoreAll(StoreAll(s, a), b)
    decreases |b|
  {
    hide WriteEntry;
    if |b| == 0 {
      assert a + b == a;
    } else {
      assert (a + b)[..|a + b| - 1] == a + b[..|b| - 1];
      StoreAppend(s, a, b[..|b| - 1]);
    }
  }

  lemma StoreNothing(s: Store)
    ensures StoreAll(s, []) == s && KeysOf([]) == []
  {}

  lemma StoreOne(s: Store, key: string, value: string)
    ensures StoreAll(s, [(key, value)]) == WriteEntry(s, key, StringBytes(value), 1)
    ensures KeysOf([(key, value)]) == [key]
  {
    hide WriteEntry;
    assert [(key, value)][..0] == [];
  }

  lemma Associate(done: seq<Pair>, rest: string, pairs: seq<Pair>)
    requires done + Parse(rest) == pairs
    ensures Parse(rest) == [] ==> done == pairs
    ensures forall a: seq<Pair>, b: seq<Pair> :: Parse(rest) == a + b ==> done + a + b == pairs
  {}

  lemma CStringOfNothing(buffer: string)
    requires |buffer| > 0
    ensures buffer[0] == NUL ==> CString(buffer) == "" && Parse(CString(buffer)) == []
  {}

  lemma CStringTerminated(buffer: string)
    requires |buffer| > 0 && buffer[|buffer| - 1] == NUL
    ensures |CString(buffer)| < |buffer| && buffer[|CString(buffer)|] == NUL
  {
    assert buffer[..|buffer|] == buffer && NUL in buffer;
  }

  lemma CStringEnds(buffer: string, n: nat)
    requires n < |buffer| && NUL !in buffer[..n] && buffer[n] == NUL
    ensures CString(buffer) == buffer[..n]
  {
    FindIs(buffer, NUL, n);
  }

  lemma CStringSplits(buffer: string, n: nat)
    requires n < |buffer| && NUL !in buffer[..n] && buffer[n] != NUL
    ensures CString(buffer) == buffer[..n] + [buffer[n]] + CString(buffer[n + 1..])
  {
    var rest := buffer[n + 1..];
    var m := Find(rest, NUL);
    assert forall i | n < i < n + 1 + m :: buffer[i] == rest[i - n - 1];
    assert forall i | 0 <= i < n :: buffer[i] in buffer[..n];
    FindIs(buffer, NUL, n + 1 + m);
  }

  lemma SeparatorSkipped(buffer: string)
    requires |buffer| > 0 && buffer[0] == ';'
    ensures Parse(CString(buffer)) == Parse(CString(buffer[1..]))
  {
    hide Parse, CString;
    CStringSplits(buffer, 0);
    ParseToken("", CString(buffer[1..]));
    assert buffer[..0] + [';'] + CString(buffer[1..]) == "" + ";" + CString(buffer[1..]);
  }

  /** The token that ends at position n, the rest behind it, and the buffer with the token cut off. */
  lemma TokenCutOff(buffer: string, n: nat)
    requires n < |buffer| && (buffer[n] == NUL || buffer[n] == ';')
    requires forall i | 0 <= i < n :: buffer[i] != NUL && buffer[i] != ';'
    ensures CString(buffer[n := NUL]) == buffer[..n]
    ensures buffer[n] == NUL ==> Parse(CString(buffer)) == PairOf(buffer[..n]) + Parse(CString(buffer[n..]))
    ensures buffer[n] == ';' ==> Parse(CString(buffer)) == PairOf(buffer[..n]) + Parse(CString(buffer[n + 1..]))
  {
    hide Parse, CString, PairOf;
    assert buffer[n := NUL][..n] == buffer[..n];
    CStringEnds(buffer[n := NUL], n);
    if buffer[n] == NUL {
      CStringEnds(buffer, n);
      ParseToken(buffer[..n], "");
      CStringOfNothing(buffer[n..]);
    } else {
      CStringSplits(buffer, n);
      ParseToken(buffer[..n], CString(buffer[n + 1..]));
    }
  }

  lemma EqualsFound(buffer: string, n: nat)
    requires n < |buffer| && (buffer[n] == NUL || buffer[n] == '=')
    requires forall i | 0 <= i < n :: buffer[i] != NUL && buffer[i] != '='
    ensures Find(CString(buffer), '=') == n
    ensures n < |CString(buffer)| <==> buffer[n] == '='
  {
    hide CString;
    if buffer[n] == NUL {
      CStringEnds(buffer, n);
    } else {
      CStringSplits(buffer, n);
      assert CString(buffer)[..n] == buffer[..n];
    }
    FindIs(CString(buffer), '=', n);
  }

  /** Writing a NUL over the '=' leaves the key and the value as two C strings. */
  lemma PairCutOut(buffer: string, e: nat)
    requires e < |CString(buffer)| && e == Find(CString(buffer), '=')
    requires |CString(buffer)| < |buffer| && buffer[|CString(buffer)|] == NUL
    ensures PairOf(CString(buffer)) == [(CString(buffer[e := NUL]), CString(buffer[e := NUL][e + 1..]))]
  {
    var t := CString(buffer);
    var cut := buffer[e := NUL];
    assert cut[..e] == t[..e];
    CStringEnds(cut, e);
    var rest := cut[e + 1..];
    assert rest[..|t| - e - 1] == t[e + 1..];
    CStringEnds(rest, |t| - e - 1);
  }
}
