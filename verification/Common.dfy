/** Machine integers, the library's status codes and the two wrapper datatypes
    every other module uses. */
module Common {

  const U32_MAX: int := 0xFFFF_FFFF
  const U64_MAX: int := 0xFFFF_FFFF_FFFF_FFFF

  type U16 = x: int | 0 <= x <= 0xFFFF
  type U32 = x: int | 0 <= x <= 0xFFFF_FFFF
  type U64 = x: int | 0 <= x <= 0xFFFF_FFFF_FFFF_FFFF

  // The unsigned C operators: every result is reduced modulo the width.

  function WrapU32(x: int): U32 {
    x % 0x1_0000_0000
  }

  function WrapU64(x: int): U64 {
    x % 0x1_0000_0000_0000_0000
  }

  function Min(a: int, b: int): int {
    if a <= b then a else b
  }

  /** A NUL-terminated byte string, seen as the characters before the NUL.
      One Dafny char stands for one byte. */
  type CString = s: string | '\0' !in s

  /** The string a reader finds in a buffer: everything before the first NUL. */
  function CStr(buffer: seq<char>): CString {
    if buffer == [] || buffer[0] == '\0' then [] else [buffer[0]] + CStr(buffer[1..])
  }

  lemma {:induction false} CStrStopsAtNul(s: CString, rest: seq<char>)
    ensures CStr(s + ['\0'] + rest) == s
  {
    var buffer := s + ['\0'] + rest;
    if s != [] {
      assert buffer[1..] == s[1..] + ['\0'] + rest;
      assert '\0' !in s[1..];
      CStrStopsAtNul(s[1..], rest);
    }
  }

  datatype Option<+T> = None | Some(value: T)

  datatype Result<+T> = Ok(value: T) | Err(status: Status)

  /** The return codes of the modelled calls. The library gives each its own number. */
  datatype Status =
    | Success
    | InvalidParam
    | NullInput
    | MemAlloc
    | SystemTimeError
    | SecureTransport
    // role-based access control
    | RbacDisabled
    | RbacDenied
    | RbacRoleUnknown
    | RbacMapFull
    | RbacMapNotFound
    | RbacMapFrozen
    | RbacPolicyNotFound
    | RbacPolicyFull
    | RbacPolicyDuplicate
    | RbacPolicyInvalid
    | CertNodeIdAbsent
    | CertRoleAbsent
    | ParseCert
    // TLS
    | WantRead
    | WantWrite
    | WriteFailed
    | KeyUpdateFailed
    | InitNotFinished
    | SetUpdateParam
    | SetCipher
    | PolicyVersion
    | SetProtocolVer
    | SetVerForbid
    | SetSessTicket
}
