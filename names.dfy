/**
 * Two small pure helpers of src/photo/utils.c: the character generator used
 * to build temporary file names, and the parser of pixel type names.
 */
module Names {

  /** The pixel types a region can hold (PIXDATATYPE). */
  datatype PixType = U8 | S8 | U16 | S16 | U32 | S32 | FL32

  /** C's `%` on int: the remainder truncates toward zero, so it takes the sign of a. */
  function CRem(a: int, b: int): (r: int)
    requires b > 0
    ensures a >= 0 ==> r == a % b
    ensures a < 0 ==> -b < r <= 0
  {
    if a >= 0 then a % b else -((-a) % b)
  }

  /** NCHAR: the number of characters names are built from. */
  const NChar := 62

  /** A character that may appear in a temporary name: a digit or an ASCII letter. */
  predicate IsNameChar(ch: char)
  {
    '0' <= ch <= '9' || 'a' <= ch <= 'z' || 'A' <= ch <= 'Z'
  }

  /**
   * get09azAZ(c): the character numbered c modulo NCHAR, as a character code:
   * digits first, then lower-case, then upper-case letters. For a negative c
   * the C remainder is negative and the code falls at or below '0'.
   */
  function Get09azAZ(c: int): (r: int)
    ensures c >= 0 ==> 0 <= r < 128 && IsNameChar(r as char)
    ensures c < 0 ==> '0' as int - (NChar - 1) <= r <= '0' as int
  {
    var c0 := CRem(c, NChar);
    if c0 < 10 then
      c0 + '0' as int
    else
      var c1 := c0 - 10;
      if c1 < 26 then
        c1 + 'a' as int
      else
        c1 - 26 + 'A' as int
  }

  /**
   * The position of a name character among the NCHAR characters: the inverse
   * of get09azAZ on non-negative numbers.
   */
  function IndexOf09azAZ(ch: char): (r: Option)
    ensures r.Some? <==> IsNameChar(ch)
    ensures r.Some? ==> r.value < NChar
  {
    if '0' <= ch <= '9' then Some(ch as int - '0' as int)
    else if 'a' <= ch <= 'z' then Some(ch as int - 'a' as int + 10)
    else if 'A' <= ch <= 'Z' then Some(ch as int - 'A' as int + 36)
    else None
  }

  datatype Option = None | Some(value: nat)

  /** Reading back the character of a non-negative number gives that number modulo NCHAR. */
  lemma Get09azAZRoundTrip(c: int)
    requires c >= 0
    ensures IndexOf09azAZ(Get09azAZ(c) as char) == Some(c % NChar)
  {
    var r := Get09azAZ(c);
    var i := c % NChar;
    if i < 10 {
      assert r == i + '0' as int;
    } else if i < 36 {
      assert r == i - 10 + 'a' as int;
    } else {
      assert r == i - 36 + 'A' as int;
    }
  }

  /** Every name character is produced, by its own index. */
  lemma IndexOf09azAZRoundTrip(ch: char)
    requires IsNameChar(ch)
    ensures Get09azAZ(IndexOf09azAZ(ch).value) == ch as int
  {
  }

  /** Hence different numbers below NCHAR give different characters. */
  lemma Get09azAZInjective(a: int, b: int)
    requires 0 <= a < NChar && 0 <= b < NChar && a != b
    ensures Get09azAZ(a) != Get09azAZ(b)
  {
    Get09azAZRoundTrip(a);
    Get09azAZRoundTrip(b);
  }

  /** The name of each pixel type, as phTypenameToType spells them. */
  function TypeName(t: PixType): string
  {
    match t
    case U8 => "U8"
    case S8 => "S8"
    case U16 => "U16"
    case S16 => "S16"
    case U32 => "U32"
    case S32 => "S32"
    case FL32 => "FL32"
  }

  /**
   * phTypenameToType: a NULL string and an unknown name both give 0 (here
   * NoType); "U32" is not among the names recognised.
   */
  function PhTypenameToType(typeStr: OptString): (r: TypeResult)
    ensures forall t :: t != U32 && typeStr == Str(TypeName(t)) ==> r == Type(t)
    ensures r.Type? ==> r.t != U32 && typeStr == Str(TypeName(r.t))
  {
    match typeStr
    case Null => NoType
    case Str(s) =>
      if s == "U8" then Type(U8)
      else if s == "S8" then Type(S8)
      else if s == "U16" then Type(U16)
      else if s == "S16" then Type(S16)
      else if s == "S32" then Type(S32)
      else if s == "FL32" then Type(FL32)
      else NoType
  }

  /** A C string that may be NULL. */
  datatype OptString = Null | Str(s: string)

  /** PIXDATATYPE as returned: a type, or 0. */
  datatype TypeResult = NoType | Type(t: PixType)
}
