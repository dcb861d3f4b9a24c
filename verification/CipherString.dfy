/** The cipher-suite list handed to the TLS library: two passes over the ids, the
    first sizing the buffer and the second filling it, and the parser that undoes
    the result. */
module CipherString {
  import opened Common

  /** A table entry: a name without colons, followed by one. */
  predicate IsEntry(s: CString) {
    2 <= |s| <= 46 && s[|s| - 1] == ':' && forall i :: 0 <= i < |s| - 1 ==> s[i] != ':'
  }

  type Entry = s: CString | IsEntry(s) witness "?:"

  const ECDHE_ECDSA_AES_128_GCM: Entry := "TLS_ECDHE_ECDSA_WITH_" + "AES_128_GCM_SHA256:"
  const ECDHE_ECDSA_AES_256_GCM: Entry := "TLS_ECDHE_ECDSA_WITH_" + "AES_256_GCM_SHA384:"
  const ECDHE_RSA_AES_128_GCM: Entry := "TLS_ECDHE_RSA_WITH_" + "AES_128_GCM_SHA256:"
  const ECDHE_RSA_AES_256_GCM: Entry := "TLS_ECDHE_RSA_WITH_" + "AES_256_GCM_SHA384:"
  const ECDHE_RSA_CHACHA20: Entry := "TLS_ECDHE_RSA_WITH_" + "CHACHA20_POLY1305_SHA256:"
  const ECDHE_ECDSA_CHACHA20: Entry := "TLS_ECDHE_ECDSA_WITH_" + "CHACHA20_POLY1305_SHA256:"
  const AES_128_GCM: Entry := "TLS_AES_128_GCM_SHA256:"
  const AES_256_GCM: Entry := "TLS_AES_256_GCM_SHA384:"
  const CHACHA20: Entry := "TLS_CHACHA20_POLY1305_SHA256:"
  const AES_128_CCM: Entry := "TLS_AES_128_CCM_SHA256:"

  function CipherId2CipherStr(id: U16): Option<Entry> {
    match id
    case 0xC02B => Some(ECDHE_ECDSA_AES_128_GCM)
    case 0xC02C => Some(ECDHE_ECDSA_AES_256_GCM)
    case 0xC02F => Some(ECDHE_RSA_AES_128_GCM)
    case 0xC030 => Some(ECDHE_RSA_AES_256_GCM)
    case 0xCCA8 => Some(ECDHE_RSA_CHACHA20)
    case 0xCCA9 => Some(ECDHE_ECDSA_CHACHA20)
    case 0x1301 => Some(AES_128_GCM)
    case 0x1302 => Some(AES_256_GCM)
    case 0x1303 => Some(CHACHA20)
    case 0x1304 => Some(AES_128_CCM)
    case _ => None
  }

  predicate IsKnown(id: U16) {
    CipherId2CipherStr(id).Some?
  }

  function NameOf(id: U16): CString
    requires IsKnown(id)
  {
    var entry := CipherId2CipherStr(id).value;
    entry[..|entry| - 1]
  }

  // ---------------------------------------------------------------- the intended string

  /** The known ids, in order. */
  function Recognised(ids: seq<U16>): (known: seq<U16>)
    ensures forall i :: 0 <= i < |known| ==> IsKnown(known[i])
  {
    if ids == [] then []
    else
      var before, last := Recognised(ids[..|ids| - 1]), ids[|ids| - 1];
      if IsKnown(last) then before + [last] else before
  }

  lemma RecognisedOne(id: U16)
    ensures Recognised([id]) == if IsKnown(id) then [id] else []
  {
    assert [id][..0] == [];
  }

  /** The ids are judged one by one and keep their order, repeated ones included. */
  lemma {:induction false} RecognisedInOrder(ids: seq<U16>, more: seq<U16>)
    ensures Recognised(ids + more) == Recognised(ids) + Recognised(more)
  {
    if more == [] {
      assert ids + more == ids;
    } else {
      RecognisedInOrder(ids, more[..|more| - 1]);
      assert (ids + more)[..|ids + more| - 1] == ids + more[..|more| - 1];
    }
  }

  /** The names that RFC 8446 (appendix B.4), RFC 5289 and RFC 7905 register for the ids, which
      are the known ones. */
  lemma RegisteredIds(id: U16)
    ensures IsKnown(id) <==>
              id in {0xC02B, 0xC02C, 0xC02F, 0xC030, 0xCCA8, 0xCCA9, 0x1301, 0x1302, 0x1303, 0x1304}
  {
  }

  lemma RegisteredEcdsaNames(id: U16)
    ensures id == 0xC02B ==> NameOf(id) == "TLS_ECDHE_ECDSA_WITH_AES_128_GCM_SHA256"
    ensures id == 0xC02C ==> NameOf(id) == "TLS_ECDHE_ECDSA_WITH_AES_256_GCM_SHA384"
  {
  }

  lemma RegisteredRsaNames(id: U16)
    ensures id == 0xC02F ==> NameOf(id) == "TLS_ECDHE_RSA_WITH_AES_128_GCM_SHA256"
    ensures id == 0xC030 ==> NameOf(id) == "TLS_ECDHE_RSA_WITH_AES_256_GCM_SHA384"
  {
  }

  lemma RegisteredRsaChaChaName(id: U16)
    ensures id == 0xCCA8 ==> NameOf(id) == "TLS_ECDHE_RSA_WITH_CHACHA20_POLY1305_SHA256"
  {
  }

  lemma RegisteredEcdsaChaChaName(id: U16)
    ensures id == 0xCCA9 ==> NameOf(id) == "TLS_ECDHE_ECDSA_WITH_CHACHA20_POLY1305_SHA256"
  {
  }

  lemma RegisteredTls13Names(id: U16)
    ensures id == 0x1301 ==> NameOf(id) == "TLS_AES_128_GCM_SHA256"
    ensures id == 0x1302 ==> NameOf(id) == "TLS_AES_256_GCM_SHA384"
    ensures id == 0x1303 ==> NameOf(id) == "TLS_CHACHA20_POLY1305_SHA256"
    ensures id == 0x1304 ==> NameOf(id) == "TLS_AES_128_CCM_SHA256"
  {
  }

  function NamesOf(known: seq<U16>): (names: seq<CString>)
    requires forall i :: 0 <= i < |known| ==> IsKnown(known[i])
    ensures |names| == |known|
  {
    seq(|known|, i requires 0 <= i < |known| => NameOf(known[i]))
  }

  /** Names separated by single colons. */
  function JoinedByColon(names: seq<CString>): CString
    requires names != []
  {
    if |names| == 1 then names[0] else JoinedByColon(names[..|names| - 1]) + ":" + names[|names| - 1]
  }

  // An unknown id contributes nothing.
  function WithEntry(text: CString, id: U16): CString {
    match CipherId2CipherStr(id)
    case Some(entry) => text + entry
    case None => text
  }

  // Every table entry in order, each with its own colon.
  function Concatenated(ids: seq<U16>): CString {
    if ids == [] then []
    else
      WithEntry(Concatenated(ids[..|ids| - 1]), ids[|ids| - 1])
  }

  lemma {:induction false} ConcatenatedSize(ids: seq<U16>)
    ensures |Concatenated(ids)| <= 46 * |ids|
    ensures |Concatenated(ids)| == 0 <==> Recognised(ids) == []
  {
    if ids != [] {
      ConcatenatedSize(ids[..|ids| - 1]);
    }
  }

  /** The concatenation is the joined names with one colon too many. */
  lemma {:induction false} ConcatenatedIsJoined(ids: seq<U16>)
    requires Recognised(ids) != []
    ensures Concatenated(ids) == JoinedByColon(NamesOf(Recognised(ids))) + ":"
  {
    var init, last := ids[..|ids| - 1], ids[|ids| - 1];
    WithEntryAddsName(Concatenated(init), last);
    if !IsKnown(last) {
      ConcatenatedIsJoined(init);
    } else if Recognised(init) == [] {
      ConcatenatedSize(init);
      assert NamesOf(Recognised(ids)) == [NameOf(last)];
    } else {
      ConcatenatedIsJoined(init);
      JoinOneMore(Recognised(init), last);
    }
  }

  lemma WithEntryAddsName(text: CString, id: U16)
    ensures WithEntry(text, id) == if IsKnown(id) then text + NameOf(id) + ":" else text
  {
    if IsKnown(id) {
      var entry := CipherId2CipherStr(id).value;
      assert entry == NameOf(id) + ":";
    }
  }

  lemma JoinOneMore(known: seq<U16>, last: U16)
    requires known != [] && IsKnown(last)
    requires forall i :: 0 <= i < |known| ==> IsKnown(known[i])
    ensures JoinedByColon(NamesOf(known + [last])) == JoinedByColon(NamesOf(known)) + ":" + NameOf(last)
  {
    var names := NamesOf(known + [last]);
    assert names[..|names| - 1] == NamesOf(known);
  }

  // ---------------------------------------------------------------- the builder

  method GetCipherSuitesStrLen(ids: seq<U16>) returns (len: U64)
    requires |ids| <= U32_MAX
    ensures len == |Concatenated(ids)|
  {
    len := 0;
    for i := 0 to |ids|
      invariant len == |Concatenated(ids[..i])|
    {
      assert ids[..i + 1][..i] == ids[..i];
      ConcatenatedSize(ids[..i + 1]);
      var entry := CipherId2CipherStr(ids[i]);
      if entry.Some? {
        len := WrapU64(len + |entry.value|);
      }
    }
    assert ids[..|ids|] == ids;
  }

  /** The bounds-checked copy refuses a destination larger than the size it supports, or
      smaller than the source. */
  predicate CopyAccepted(destMax: int, count: nat, supported: U64) {
    0 < destMax <= supported && count <= destMax
  }

  /** How many characters have been copied once the loop has seen `ids`, when the buffer has
      `total` of them. */
  function CopiedAfter(ids: seq<U16>, total: nat, supported: U64): nat {
    if ids == [] then 0
    else
      var offset := CopiedAfter(ids[..|ids| - 1], total, supported);
      match CipherId2CipherStr(ids[|ids| - 1])
      case Some(entry) => if CopyAccepted(total - offset, |entry|, supported) then offset + |entry| else offset
      case None => offset
  }

  lemma {:induction false} CopyAllOrNothing(ids: seq<U16>, total: nat, supported: U64)
    requires |Concatenated(ids)| <= total
    ensures CopiedAfter(ids, total, supported) == if total <= supported then |Concatenated(ids)| else 0
  {
    if ids != [] {
      CopyAllOrNothing(ids[..|ids| - 1], total, supported);
    }
  }

  /** The copies fill the buffer exactly when the copy function supports one of its size. */
  lemma CopiesFillExactly(ids: seq<U16>, supported: U64)
    requires Recognised(ids) != []
    ensures var total := |Concatenated(ids)|; CopiedAfter(ids, total, supported) == total <==> total <= supported
  {
    ConcatenatedSize(ids);
    CopyAllOrNothing(ids, |Concatenated(ids)|, supported);
  }

  function Repeated(id: U16, n: nat): (ids: seq<U16>)
    ensures |ids| == n
  {
    if n == 0 then [] else Repeated(id, n - 1) + [id]
  }

  lemma LongestEntryAdds(ids: seq<U16>)
    ensures |Concatenated(ids + [0xCCA9])| == |Concatenated(ids)| + 46
  {
    assert (ids + [0xCCA9])[..|ids|] == ids;
    assert |ECDHE_ECDSA_CHACHA20| == 46;
  }

  lemma {:induction false} RepeatedSize(n: nat)
    ensures |Concatenated(Repeated(0xCCA9, n))| == 46 * n
  {
    if n > 0 {
      RepeatedSize(n - 1);
      LongestEntryAdds(Repeated(0xCCA9, n - 1));
    }
  }

  /** A list that the call can receive exceeds the supported size exactly when that is below
      the size of the longest entry for every id, so a limit of 2^31 - 1 is exceeded. */
  lemma SomeListExceedsExactly(supported: U64)
    ensures (exists ids: seq<U16> :: |ids| <= U32_MAX && |Concatenated(ids)| > supported)
            <==> supported < 46 * U32_MAX
  {
    if supported < 46 * U32_MAX {
      var n: nat :| n == U32_MAX;
      RepeatedSize(n);
      assert |Concatenated(Repeated(0xCCA9, n))| > supported;
    }
    forall ids: seq<U16> | |ids| <= U32_MAX
      ensures |Concatenated(ids)| <= 46 * U32_MAX
    {
      ConcatenatedSize(ids);
    }
  }

  /** The string is built from the ids, whatever the buffer held before: with `supported` at
      least the buffer size every copy fits and the buffer is filled exactly; otherwise no
      copy is accepted at all. */
  method SetCipherSuites(ids: seq<U16>, supported: U64, libraryAccepts: bool)
    returns (status: Status, buffer: array?<char>, copied: U64)
    requires |ids| <= U32_MAX
    ensures buffer == null <==> Recognised(ids) == []
    ensures status == Success <==> buffer != null && libraryAccepts
    ensures status in {Success, SetCipher}
    ensures buffer != null ==> fresh(buffer) && buffer.Length == |Concatenated(ids)|
    ensures buffer != null ==> copied == if buffer.Length <= supported then buffer.Length else 0
    ensures buffer != null && buffer.Length <= supported ==>
              buffer[..] == JoinedByColon(NamesOf(Recognised(ids))) + ['\0']
  {
    copied := 0;
    ConcatenatedSize(ids);
    var totalLen := GetCipherSuitesStrLen(ids);
    if totalLen == 0 {
      return SetCipher, null, 0;
    }
    var text := new char[totalLen];
    copied := FillBuffer(ids, supported, text);
    ConcatenatedIsJoined(ids);
    text[totalLen - 1] := '\0';
    buffer := text;
    status := if libraryAccepts then Success else SetCipher;
  }

  method FillBuffer(ids: seq<U16>, supported: U64, buffer: array<char>) returns (offset: U64)
    requires |Concatenated(ids)| == buffer.Length <= U64_MAX
    modifies buffer
    ensures offset == CopiedAfter(ids, buffer.Length, supported)
    ensures offset == if buffer.Length <= supported then buffer.Length else 0
    ensures buffer.Length <= supported ==> buffer[..] == Concatenated(ids)
  {
    offset := 0;
    CopyAllOrNothing(ids, buffer.Length, supported);
    for i := 0 to |ids|
      invariant offset == if buffer.Length <= supported then |Concatenated(ids[..i])| else 0
      invariant offset <= buffer.Length
      invariant buffer.Length <= supported ==> buffer[..offset] == Concatenated(ids[..i])
    {
      NextEntry(ids, i);
      var entry := CipherId2CipherStr(ids[i]);
      if entry.Some? {
        if CopyAccepted(buffer.Length - offset, |entry.value|, supported) {
          CopyInto(buffer, offset, entry.value);
          offset := offset + |entry.value|;
        }
      }
    }
    assert ids[..|ids|] == ids;
  }

  lemma {:induction false} NextEntry(ids: seq<U16>, i: nat)
    requires i < |ids|
    ensures Concatenated(ids[..i + 1]) == WithEntry(Concatenated(ids[..i]), ids[i])
    ensures |Concatenated(ids[..i + 1])| <= |Concatenated(ids)|
    decreases |ids|
  {
    assert ids[..i + 1][..i] == ids[..i];
    if i + 1 == |ids| {
      assert ids[..i + 1] == ids;
    } else {
      NextEntry(ids[..|ids| - 1], i);
      assert ids[..|ids| - 1][..i + 1] == ids[..i + 1];
    }
  }

  method CopyInto(buffer: array<char>, offset: nat, source: CString)
    requires offset + |source| <= buffer.Length
    modifies buffer
    ensures buffer[..] == old(buffer[..offset]) + source + old(buffer[offset + |source|..])
  {
    for n := 0 to |source|
      invariant forall k :: 0 <= k < buffer.Length ==>
                  buffer[k] == if offset <= k < offset + n then source[k - offset] else old(buffer[k])
    {
      buffer[offset + n] := source[n];
    }
  }

  // ---------------------------------------------------------------- reading it back

  function Split(s: CString): (parts: seq<CString>)
    ensures parts != []
  {
    if s == [] then [[]]
    else
      var last := s[|s| - 1];
      var parts := Split(s[..|s| - 1]);
      if last == ':' then parts + [[]]
      else parts[..|parts| - 1] + [parts[|parts| - 1] + [last]]
  }

  predicate HasNoColon(s: CString) {
    forall i :: 0 <= i < |s| ==> s[i] != ':'
  }

  lemma {:induction false} SplitAppendsName(s: CString, name: CString)
    requires HasNoColon(name)
    ensures Split(s + ":" + name) == Split(s) + [name]
  {
    var whole := s + ":" + name;
    if name == [] {
      assert whole[..|whole| - 1] == s;
    } else {
      var init := name[..|name| - 1];
      SplitAppendsName(s, init);
      assert whole[..|whole| - 1] == s + ":" + init;
      assert init + [name[|name| - 1]] == name;
    }
  }

  lemma {:induction false} SplitOfName(name: CString)
    requires HasNoColon(name)
    ensures Split(name) == [name]
  {
    if name != [] {
      var init := name[..|name| - 1];
      SplitOfName(init);
      assert init + [name[|name| - 1]] == name;
    }
  }

  lemma {:induction false} SplitUndoesJoin(names: seq<CString>)
    requires names != [] && forall i :: 0 <= i < |names| ==> HasNoColon(names[i])
    ensures Split(JoinedByColon(names)) == names
  {
    if |names| == 1 {
      SplitOfName(names[0]);
    } else {
      var init, last := names[..|names| - 1], names[|names| - 1];
      assert HasNoColon(last);
      SplitUndoesJoin(init);
      SplitAppendsName(JoinedByColon(init), last);
      assert names == init + [last];
    }
  }

  /** Joining the parts gives the text back, and no part holds a colon. */
  lemma {:induction false} JoinUndoesSplit(s: CString)
    ensures JoinedByColon(Split(s)) == s
    ensures forall i :: 0 <= i < |Split(s)| ==> HasNoColon(Split(s)[i])
  {
    if s != [] {
      var init, last := s[..|s| - 1], s[|s| - 1];
      var parts := Split(init);
      JoinUndoesSplit(init);
      assert s == init + [last];
      if last == ':' {
        AppendEmptyPart(parts);
      } else {
        var front, part := parts[..|parts| - 1], parts[|parts| - 1];
        assert parts == front + [part];
        ExtendLastPart(front, part, part + [last], last);
      }
    }
  }

  lemma AppendEmptyPart(parts: seq<CString>)
    requires parts != []
    ensures JoinedByColon(parts + [[]]) == JoinedByColon(parts) + [':']
  {
    assert (parts + [[]])[..|parts|] == parts;
  }

  lemma JoinLast(front: seq<CString>, last: CString)
    requires front != []
    ensures JoinedByColon(front + [last]) == JoinedByColon(front) + ":" + last
  {
    assert (front + [last])[..|front|] == front;
  }

  lemma ExtendLastPart(front: seq<CString>, last: CString, longer: CString, c: char)
    requires longer == last + [c]
    ensures JoinedByColon(front + [longer]) == JoinedByColon(front + [last]) + [c]
  {
    if front != [] {
      JoinLast(front, last);
      JoinLast(front, longer);
    }
  }

  /** What tells the names apart: the length and two of the characters. */
  function Fingerprint(s: CString): (nat, char, char)
    requires |s| >= 22
  {
    if |s| < 30 then (|s|, s[8], s[12])
    else if |s| == 37 then (|s|, s[23], ' ')
    else if |s| == 39 then (|s|, s[25], ' ')
    else (|s|, ' ', ' ')
  }

  function IdOf(f: (nat, char, char)): U16 {
    if f.0 == 39 then (if f.1 == '1' then 0xC02B else 0xC02C)
    else if f.0 == 37 then (if f.1 == '1' then 0xC02F else 0xC030)
    else if f.0 == 43 then 0xCCA8
    else if f.0 == 45 then 0xCCA9
    else if f.0 == 28 then 0x1303
    else if f.2 == 'C' then 0x1304
    else if f.1 == '1' then 0x1301
    else 0x1302
  }

  lemma FingerprintFindsId(id: U16)
    requires IsKnown(id)
    ensures |NameOf(id)| >= 22 && IdOf(Fingerprint(NameOf(id))) == id
  {
  }

  /** The id a name belongs to, if any. */
  function NameToId(name: CString): Option<U16> {
    if |name| >= 22 && IsKnown(IdOf(Fingerprint(name))) && NameOf(IdOf(Fingerprint(name))) == name
    then Some(IdOf(Fingerprint(name)))
    else None
  }

  lemma NameReadsBack(id: U16)
    requires IsKnown(id)
    ensures NameToId(NameOf(id)) == Some(id)
    ensures HasNoColon(NameOf(id))
  {
    FingerprintFindsId(id);
  }

  /** Reads a colon-separated list of names back into ids. */
  function Parse(s: CString): seq<Option<U16>> {
    var parts := Split(s);
    seq(|parts|, i requires 0 <= i < |parts| => NameToId(parts[i]))
  }

  /** Parsing the string the builder hands over gives the recognised ids, in order. */
  lemma BuiltStringParses(ids: seq<U16>, rest: seq<char>)
    requires Recognised(ids) != []
    ensures var known := Recognised(ids);
            var parsed := Parse(CStr(JoinedByColon(NamesOf(known)) + ['\0'] + rest));
            && |parsed| == |known|
            && forall i :: 0 <= i < |known| ==> parsed[i] == Some(known[i])
  {
    var known := Recognised(ids);
    var names := NamesOf(known);
    forall i | 0 <= i < |known|
      ensures NameToId(names[i]) == Some(known[i]) && HasNoColon(names[i])
    {
      NameReadsBack(known[i]);
    }
    CStrStopsAtNul(JoinedByColon(names), rest);
    SplitUndoesJoin(names);
  }
}
