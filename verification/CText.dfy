/** C strings and optional values, shared by the other modules. */
module CText {

  datatype Option<T> = None | Some(value: T)

  const NUL: char := '\0'

  /** The characters of a C string, without its terminator. */
  type Text = s: string | NUL !in s

  /** A character of a terminated string: its terminator stands right behind it. */
  function At(s: string, i: nat): char { if i < |s| then s[i] else NUL }

  predicate IsDigit(c: char) { '0' <= c <= '9' }

  /** Every percent sign doubled, as the formats of printf and strftime want it. */
  function Escape(text: string): string {
    if text == "" then "" else (if text[0] == '%' then "%%" else [text[0]]) + Escape(text[1..])
  }

  const STRLEN_WRAP: nat := 0x10000

  /** The index of the k-th character that strlen reads. */
  function Read(k: nat): nat { k % STRLEN_WRAP }

  /** strlen, which counts in 16 bits, on a text of n characters and what follows it in memory. A
      terminator beyond the first 65536 characters is never reached: the counter comes round to 0
      with nothing changed, and the same characters are read for ever. */
  method Strlen(memory: string, ghost n: nat) returns (len: nat, hangs: bool)
    requires n < |memory| && NUL !in memory[..n] && memory[n] == NUL
    ensures hangs <==> n >= STRLEN_WRAP
    ensures !hangs ==> len == n
    ensures hangs ==> forall k :: Read(k) < |memory| && memory[Read(k)] != NUL
  {
    assert forall k :: 0 <= k < n ==> memory[k] == memory[..n][k];
    len := 0;
    while memory[len] != NUL
      invariant 0 <= len <= n && len < STRLEN_WRAP
      decreases n - len
    {
      len := (len + 1) % STRLEN_WRAP;
      if len == 0 {
        return 0, true;
      }
    }
    hangs := false;
  }

  /** strlen of a C string. */
  method LengthOf(text: Text) returns (len: nat, hangs: bool)
    ensures hangs <==> |text| >= STRLEN_WRAP
    ensures !hangs ==> len == |text|
  {
    assert (text + [NUL])[..|text|] == text;
    len, hangs := Strlen(text + [NUL], |text|);
  }
}
