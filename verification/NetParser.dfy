/** Reading and writing integers in network byte order, with the parser's sticky error. */
module NetParsers {
  import opened Prelude

  datatype ParseResult =
    NoError | BadChecksum | PacketTooShort | WrongIPVersion | HeaderTooShort | TruncatedPacket | Unsupported

  function Pow256(n: nat): nat {
    if n == 0 then 1 else 0x100 * Pow256(n - 1)
  }

  function BigEndian(v: nat, n: nat): (s: seq<byte>)
    ensures |s| == n
  {
    if n == 0 then [] else BigEndian(v / 0x100, n - 1) + [v % 0x100]
  }

  function FromBigEndian(s: seq<byte>): nat {
    if s == [] then 0 else FromBigEndian(s[..|s| - 1]) * 0x100 + s[|s| - 1]
  }

  lemma {:induction false} BigEndianRoundTrip(v: nat, n: nat)
    requires v < Pow256(n)
    ensures FromBigEndian(BigEndian(v, n)) == v
    decreases n
  {
    if n > 0 {
      BigEndianRoundTrip(v / 0x100, n - 1);
      var s := BigEndian(v, n);
      assert s[..|s| - 1] == BigEndian(v / 0x100, n - 1);
    }
  }

  // ---------------------------------------------------------------- fields

  datatype Field = Field(value: nat, width: nat)

  ghost predicate Fit(fs: seq<Field>) {
    forall f :: f in fs ==> f.value < Pow256(f.width)
  }

  function Encode(fs: seq<Field>): seq<byte> {
    if fs == [] then [] else BigEndian(fs[0].value, fs[0].width) + Encode(fs[1..])
  }

  function Widths(fs: seq<Field>): seq<nat> {
    seq(|fs|, i requires 0 <= i < |fs| => fs[i].width)
  }

  function Values(fs: seq<Field>): seq<nat> {
    seq(|fs|, i requires 0 <= i < |fs| => fs[i].value)
  }

  lemma {:induction false} EncodeConcat(fs: seq<Field>, gs: seq<Field>)
    ensures Encode(fs + gs) == Encode(fs) + Encode(gs)
    decreases |fs|
  {
    if fs == [] {
      assert fs + gs == gs;
    } else {
      assert (fs + gs)[1..] == fs[1..] + gs;
      EncodeConcat(fs[1..], gs);
    }
  }

  // ---------------------------------------------------------------- the parser as a value

  datatype Cursor = Cursor(buffer: seq<byte>, error: ParseResult)

  function CheckSize(c: Cursor, n: nat): Cursor {
    if n > |c.buffer| then c.(error := PacketTooShort) else c
  }

  function TakeInt(c: Cursor, n: nat): (nat, Cursor) {
    var d := CheckSize(c, n);
    if d.error != NoError then (0, d)
    else (FromBigEndian(d.buffer[..n]), d.(buffer := d.buffer[n..]))
  }

  function SkipBytes(c: Cursor, n: nat): Cursor {
    var d := CheckSize(c, n);
    if d.error != NoError then d else d.(buffer := d.buffer[n..])
  }

  function TakeAll(c: Cursor, ws: seq<nat>): (r: (seq<nat>, Cursor))
    ensures |r.0| == |ws|
    decreases |ws|
  {
    if ws == [] then ([], c) else
    var (vs, d) := TakeAll(c, ws[..|ws| - 1]);
    var (v, e) := TakeInt(d, ws[|ws| - 1]);
    (vs + [v], e)
  }

  lemma TakeIntOfEncoded(v: nat, n: nat, rest: seq<byte>)
    requires v < Pow256(n)
    ensures TakeInt(Cursor(BigEndian(v, n) + rest, NoError), n) == (v, Cursor(rest, NoError))
  {
    var s := BigEndian(v, n) + rest;
    assert s[..n] == BigEndian(v, n) && s[n..] == rest;
    BigEndianRoundTrip(v, n);
  }

  /** Reading back what was written field by field gives the fields, and leaves what follows. */
  lemma {:induction false} FieldsRoundTrip(fs: seq<Field>, rest: seq<byte>)
    requires Fit(fs)
    ensures TakeAll(Cursor(Encode(fs) + rest, NoError), Widths(fs)) == (Values(fs), Cursor(rest, NoError))
    decreases |fs|
  {
    if fs == [] {
      assert Encode(fs) + rest == rest && Widths(fs) == [] && Values(fs) == [];
    } else {
      var last := fs[|fs| - 1];
      var front := fs[..|fs| - 1];
      var tail := BigEndian(last.value, last.width) + rest;
      LastFieldApart(fs, rest);
      FieldsRoundTrip(front, tail);
      OneMoreTaken(fs, rest);
    }
  }

  lemma OneMoreTaken(fs: seq<Field>, rest: seq<byte>)
    requires fs != [] && Fit(fs)
    requires var last := fs[|fs| - 1];
             var front := fs[..|fs| - 1];
             TakeAll(Cursor(Encode(fs) + rest, NoError), Widths(front))
             == (Values(front), Cursor(BigEndian(last.value, last.width) + rest, NoError))
    ensures TakeAll(Cursor(Encode(fs) + rest, NoError), Widths(fs)) == (Values(fs), Cursor(rest, NoError))
  {
    hide Encode, BigEndian, FromBigEndian, TakeInt;
    var last := fs[|fs| - 1];
    var front := fs[..|fs| - 1];
    assert Widths(fs)[..|fs| - 1] == Widths(front);
    assert last in fs;
    TakeIntOfEncoded(last.value, last.width, rest);
    assert Values(fs) == Values(front) + [last.value];
  }

  lemma LastFieldApart(fs: seq<Field>, rest: seq<byte>)
    requires fs != []
    ensures var last := fs[|fs| - 1];
            Encode(fs) + rest == Encode(fs[..|fs| - 1]) + (BigEndian(last.value, last.width) + rest)
  {
    var last := fs[|fs| - 1];
    var front := fs[..|fs| - 1];
    EncodeOne(last);
    EncodeConcat(front, [last]);
    hide Encode, BigEndian;
    assert fs == front + [last];
    Reassociate(Encode(front), BigEndian(last.value, last.width), rest);
  }

  lemma EncodeOne(f: Field)
    ensures Encode([f]) == BigEndian(f.value, f.width)
  {
    assert [f][1..] == [];
  }

  // ---------------------------------------------------------------- the implementation

  class NetParser {
    var buffer: seq<byte>
    var error: ParseResult
    /** Where parsing started, and the integers taken since. */
    ghost const start: Cursor
    ghost var widths: seq<nat>
    ghost var values: seq<nat>

    ghost predicate Valid()
      reads this
    {
      TakeAll(start, widths) == (values, Cursor(buffer, error))
    }

    constructor (data: seq<byte>)
      ensures Valid() && buffer == data && error == NoError
      ensures start == Cursor(data, NoError) && widths == [] && values == []
    {
      buffer, error := data, NoError;
      start, widths, values := Cursor(data, NoError), [], [];
    }

    /** `_parse_int`: a big-endian integer of `len` bytes, or zero once there has been an error. */
    method ParseInt(len: nat) returns (v: nat)
      requires Valid()
      modifies this
      ensures Valid() && widths == old(widths) + [len] && values == old(values) + [v]
      ensures (v, Cursor(buffer, error)) == TakeInt(old(Cursor(buffer, error)), len)
    {
      ghost var ws, vs := widths, values;
      v := TakeNext(len);
      widths := widths + [len];
      values := values + [v];
      assert widths[..|widths| - 1] == ws;
    }

    method TakeNext(len: nat) returns (v: nat)
      modifies `buffer, `error
      ensures (v, Cursor(buffer, error)) == TakeInt(old(Cursor(buffer, error)), len)
    {
      if len > |buffer| {
        error := PacketTooShort;
      }
      if error != NoError {
        return 0;
      }
      v := 0;
      for i := 0 to len
        invariant v == FromBigEndian(buffer[..i])
      {
        assert buffer[..i + 1][..i] == buffer[..i];
        v := v * 0x100 + buffer[i];
      }
      buffer := buffer[len..];
    }

    method RemovePrefix(n: nat)
      modifies `buffer, `error
      ensures Cursor(buffer, error) == SkipBytes(old(Cursor(buffer, error)), n)
    {
      if n > |buffer| {
        error := PacketTooShort;
      }
      if error != NoError {
        return;
      }
      buffer := buffer[n..];
    }
  }

  lemma PowersOf256()
    ensures Pow256(0) == 1 && Pow256(1) == 0x100 && Pow256(2) == 0x1_0000
    ensures Pow256(3) == 0x100_0000 && Pow256(4) == TWO32
  {
    assert Pow256(2) == 0x1_0000;
  }

  lemma DivideTwice(v: nat)
    ensures v / 0x100 / 0x100 == v / 0x1_0000
    ensures v / 0x100 / 0x1_0000 == v / 0x100_0000
  {
  }

  /** The byte that `(val >> 8k) & 0xff` extracts. */
  lemma {:induction false} BigEndianAt(v: nat, n: nat, i: nat)
    requires i < n <= 4
    ensures Pow256(n - i - 1) > 0
    ensures BigEndian(v, n)[i] == v / Pow256(n - i - 1) % 0x100
    decreases n
  {
    hide Pow256;
    PowersOf256();
    if i < n - 1 {
      BigEndianAt(v / 0x100, n - 1, i);
      DivideTwice(v);
    }
  }

  /** `_unparse_int`: appends `val` in `len` bytes. */
  method UnparseInt(s: seq<byte>, val: nat, len: nat) returns (t: seq<byte>)
    requires len <= 4
    ensures t == s + BigEndian(val, len)
  {
    t := s;
    for i := 0 to len
      invariant t == s + BigEndian(val, len)[..i]
    {
      BigEndianAt(val, len, i);
      var theByte := val / Pow256(len - i - 1) % 0x100;
      t := t + [theByte];
    }
  }

  /** The same, for a string that holds the fields `fs` already. */
  method UnparseField(s: seq<byte>, val: nat, len: nat, ghost fs: seq<Field>) returns (t: seq<byte>)
    requires len <= 4 && s == Encode(fs)
    ensures t == Encode(fs + [Field(val, len)])
  {
    t := UnparseInt(s, val, len);
    EncodeConcat(fs, [Field(val, len)]);
    assert [Field(val, len)][1..] == [];
  }
}
