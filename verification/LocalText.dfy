/** Reading the local file character by character (Common/ft_cut.c:713-735, Common/ft_dft.c:474-499). */
module LocalText {
  import opened Bytes

  /** What ft_multibyte_to_unicode says of some bytes: an incomplete character, an invalid one, or a character. */
  datatype Mb = Short | Invalid | Character(u: nat)

  type Reader = seq<byte> -> Mb

  const QUESTION: byte := 0x3F
  const LF: byte := 0x0A
  const CR: byte := 0x0D
  const CTRL_Z: byte := 0x1A

  /** One character of the file: its bytes, the last byte read, and the rest of the file.  An invalid
      character turns into a question mark. */
  datatype Read = AtEnd | Got(mb: seq<byte>, last: byte, rest: seq<byte>)

  // The bytes so far are incomplete.
  function ReadChar(reader: Reader, sofar: seq<byte>, file: seq<byte>): (r: Read)
    ensures r.Got? ==> r.mb != [] && |r.rest| < |file|
    decreases |file|
  {
    if file == [] then AtEnd
    else
      match reader(sofar + [file[0]])
      case Short => ReadChar(reader, sofar + [file[0]], file[1..])
      case Invalid => Got([QUESTION], file[0], file[1..])
      case Character(_) => Got(sofar + [file[0]], file[0], file[1..])
  }

  // The longest character that the buffers of the source leave room for.
  const MB_MAX := 15

  ghost predicate Fits(reader: Reader)
  {
    forall b: seq<byte> {:trigger reader(b)} :: |b| >= MB_MAX ==> !reader(b).Short?
  }

  lemma {:induction false} ReadFits(reader: Reader, sofar: seq<byte>, file: seq<byte>)
    requires Fits(reader) && (sofar == [] || reader(sofar).Short?)
    ensures var r := ReadChar(reader, sofar, file); r.Got? ==> |r.mb| <= MB_MAX
    decreases |file|
  {
    assert |sofar| < MB_MAX;
    if file != [] && reader(sofar + [file[0]]).Short? {
      ReadFits(reader, sofar + [file[0]], file[1..]);
    }
  }

  /** The whole file, read to its end character by character. */
  function Characters(reader: Reader, file: seq<byte>): seq<seq<byte>>
    decreases |file|
  {
    match ReadChar(reader, [], file)
    case AtEnd => []
    case Got(mb, _, rest) => [mb] + Characters(reader, rest)
  }

  function Joined<T>(parts: seq<seq<T>>): seq<T>
  {
    if parts == [] then [] else parts[0] + Joined(parts[1..])
  }

  // Whether received text loses this byte: CRs and Ctrl-Zs, with CR processing.
  predicate Dropped(strip: bool, c: byte) { strip && c in {CR, CTRL_Z} }

  function KeptByte(strip: bool, c: byte): seq<byte> { if Dropped(strip, c) then [] else [c] }

  function Kept(strip: bool, s: seq<byte>): seq<byte>
  {
    if s == [] then [] else KeptByte(strip, s[0]) + Kept(strip, s[1..])
  }

  lemma {:induction false} KeepsAll(s: seq<byte>)
    ensures Kept(false, s) == s
  {
    if s != [] {
      KeepsAll(s[1..]);
      assert [s[0]] + s[1..] == s;
    }
  }

  lemma {:induction false} KeptAppend(strip: bool, s: seq<byte>, t: seq<byte>)
    ensures Kept(strip, s + t) == Kept(strip, s) + Kept(strip, t)
  {
    hide KeptByte;
    if s == [] {
      assert s + t == t && [] + Kept(strip, t) == Kept(strip, t);
    } else {
      KeptAppend(strip, s[1..], t);
      assert (s + t)[1..] == s[1..] + t;
      Assoc(KeptByte(strip, s[0]), Kept(strip, s[1..]), Kept(strip, t));
    }
  }
}
