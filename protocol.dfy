/**
 * Constants and control texts of the stop-and-wait file-transfer protocol,
 * shared by the sender (Server.py) and the receiver (client/Client.py).
 */
module Protocol {
  import opened Bytes

  /** `Fragment_Size`: the number of fragments a file is split into. */
  const FRAGMENT_COUNT: nat := 4

  /** `Min_File_Size`: files shorter than this are refused. */
  const MIN_FILE_SIZE: nat := 1

  /** `Max_retry`: timeouts tolerated for one fragment. */
  const MAX_RETRY: nat := 5

  const WELCOME: string := "Welcome to the server!"
  const FILE_NOT_FOUND: string := "File not found"
  const FILE_SENT: string := "File sent successfully"
  const TRANSMISSION_FAILED: string := "Transmission failed"
  const EOF: string := "EOF"

  function DigitChar(d: nat): char
    requires d < 10
  {
    ['0', '1', '2', '3', '4', '5', '6', '7', '8', '9'][d]
  }

  /** Python's `str(n)` for a non-negative integer. */
  function Decimal(n: nat): (s: string)
    ensures |s| >= 1
    ensures forall i :: 0 <= i < |s| ==> '0' <= s[i] <= '9'
    decreases n
  {
    if n < 10 then [DigitChar(n)] else Decimal(n / 10) + [DigitChar(n % 10)]
  }

  /** `f"ACK:{n}"`, the receiver's positive acknowledgment. */
  function AckText(n: nat): string
  {
    "ACK:" + Decimal(n)
  }

  /** `f"NACK:{n}"`, the receiver's negative acknowledgment. */
  function NackText(n: nat): string
  {
    "NACK:" + Decimal(n)
  }

  /** The sender's notice for a file below `Min_File_Size`. */
  function TooSmallText(size: nat): string
  {
    "File is too small (" + Decimal(size) + " bytes), it must be at least "
      + Decimal(MIN_FILE_SIZE) + " bytes"
  }

  /** `c.lower()` restricted to ASCII letters. */
  function LowerChar(c: char): char
  {
    if 'A' <= c <= 'Z' then (c as int + 32) as char else c
  }

  function Lower(s: string): (r: string)
  {
    if s == [] then [] else [LowerChar(s[0])] + Lower(s[1..])
  }

  /** `name.lower() == "exit"`. */
  predicate IsExit(name: string)
  {
    Lower(name) == "exit"
  }

  /** The session ends on "exit" written in any mix of upper and lower case, and on nothing else. */
  lemma ExitAnyCase(name: string)
    ensures IsExit(name) <==>
      |name| == 4 && name[0] in "eE" && name[1] in "xX" && name[2] in "iI" && name[3] in "tT"
  {
    LowerAt(name);
    if |name| == 4 && name[0] in "eE" && name[1] in "xX" && name[2] in "iI" && name[3] in "tT" {
      assert Lower(name) == "exit";
    }
  }

  /** Lower-casing keeps the length and works character by character. */
  lemma {:induction false} LowerAt(s: string)
    ensures |Lower(s)| == |s|
    ensures forall i :: 0 <= i < |s| ==> Lower(s)[i] == LowerChar(s[i])
  {
    if s != [] {
      LowerAt(s[1..]);
    }
  }

  predicate IsAscii(s: string)
  {
    forall i :: 0 <= i < |s| ==> s[i] as int < 0x80
  }

  /** `s.encode()`: for ASCII text, UTF-8 is one byte per character. */
  function AsciiBytes(s: string): (b: seq<uint8>)
    requires IsAscii(s)
    ensures |b| == |s|
    ensures forall i :: 0 <= i < |s| ==> b[i] == s[i] as int
  {
    seq(|s|, i requires 0 <= i < |s| => s[i] as int)
  }
}
