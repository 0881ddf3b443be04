/** The DNSLink label decoder and its inverse (subdomain gateway specification, "Host request header"). */
module DnsLink {
  import opened GoStrings

  /** strings.Builder.WriteRune of a byte value: UTF-8 of U+0000 to U+00FF, so two bytes from 0x80 on. */
  function WriteRune(c: char): string {
    var v := c as int;
    if v < 128 then [c] else [(0xC0 + v / 64) as char, (0x80 + v % 64) as char]
  }

  /** `--` is a dash, a lone `-` is a dot; pairs are taken greedily from the left. */
  function ToFqdn(host: string): string {
    if host == "" then ""
    else if "--" <= host then "-" + ToFqdn(host[2..])
    else if host[0] == '-' then "." + ToFqdn(host[1..])
    else WriteRune(host[0]) + ToFqdn(host[1..])
  }

  /** A byte from 0x80 on as WriteRune writes it. */
  predicate IsWidened(name: string) {
    |name| >= 2 && name[0] as int in {0xC2, 0xC3} && 0x80 <= name[1] as int < 0xC0
  }

  function Narrowed(name: string): (c: char)
    requires IsWidened(name)
    ensures 0x80 <= c as int < 0x100 && WriteRune(c) == name[..2]
  {
    ((name[0] as int - 0xC0) * 64 + name[1] as int - 0x80) as char
  }

  /** The encoding of names into labels: `-` becomes `--`, `.` becomes `-`, two bytes for one become that one again. */
  function ToLabel(name: string): string {
    if name == "" then ""
    else if IsWidened(name) then [Narrowed(name)] + ToLabel(name[2..])
    else (if name[0] == '-' then "--" else if name[0] == '.' then "-" else [name[0]]) + ToLabel(name[1..])
  }

  /** What the decoder writes at a position, and how far it moves on. */
  function Piece(host: string, i: nat): (r: (string, nat))
    requires i < |host|
    ensures i < r.1 <= |host|
  {
    if host[i] != '-' then (WriteRune(host[i]), i + 1)
    else if i + 1 < |host| && host[i + 1] == '-' then ("-", i + 2)
    else (".", i + 1)
  }

  lemma DecodePiece(host: string, i: nat, written: string)
    requires i < |host|
    ensures written + ToFqdn(host[i..]) == written + Piece(host, i).0 + ToFqdn(host[Piece(host, i).1..])
  {
    var rest := host[i..];
    var (piece, next) := Piece(host, i);
    assert rest[1..] == host[i + 1..];
    if i + 1 < |host| {
      assert rest[2..] == host[i + 2..];
      assert "--" <= rest <==> rest[0] == '-' && rest[1] == '-';
    }
    assert ToFqdn(rest) == piece + ToFqdn(host[next..]);
    assert written + (piece + ToFqdn(host[next..])) == written + piece + ToFqdn(host[next..]);
  }

  /** The decoding loop of the source. */
  method ToDNSLinkFQDN(host: string) returns (result: string)
    ensures result == ToFqdn(host)
  {
    result := "";
    var i := 0;
    while i < |host|
      invariant 0 <= i <= |host|
      invariant ToFqdn(host) == result + ToFqdn(host[i..])
    {
      DecodePiece(host, i, result);
      var c := host[i];
      var next := if i < |host| - 1 then host[i + 1] else 0 as char;
      if c == '-' && next == '-' {
        result := result + "-";
        i := i + 2;
        continue;
      }
      if c == '-' {
        result := result + ".";
        i := i + 1;
        continue;
      }
      result := result + WriteRune(c);
      i := i + 1;
    }
  }

  /** No dot is followed by a dot or a dash. */
  predicate DotsApart(name: string) {
    forall i | 0 <= i < |name| - 1 && name[i] == '.' :: name[i + 1] != '.' && name[i + 1] != '-'
  }

  /** Every byte from 0x80 on belongs to a widened one. */
  predicate Widened(name: string) {
    if name == "" then true
    else if IsWidened(name) then Widened(name[2..])
    else name[0] as int < 128 && Widened(name[1..])
  }

  /** The names the decoder produces. */
  predicate Decoded(name: string) {
    DotsApart(name) && Widened(name)
  }

  lemma {:induction false} AsciiIsWidened(name: string)
    requires IsAscii(name)
    ensures Widened(name)
  {
    if name == "" {
    } else {
      AsciiIsWidened(name[1..]);
    }
  }

  lemma LabelOf(c: char, rest: string)
    requires (c as int) < 128
    ensures ToLabel([c] + rest) == (if c == '-' then "--" else if c == '.' then "-" else [c]) + ToLabel(rest)
  {
    assert ([c] + rest)[1..] == rest;
  }

  lemma LabelOfWide(c: char, rest: string)
    requires 128 <= c as int < 256
    ensures ToLabel(WriteRune(c) + rest) == [c] + ToLabel(rest)
  {
    var name := WriteRune(c) + rest;
    assert name[2..] == rest;
    assert Narrowed(name) == c;
  }

  lemma {:induction false} EncodeOfDecode(host: string)
    requires IsBytes(host) && '.' !in host
    ensures ToLabel(ToFqdn(host)) == host
  {
    if host == "" {
    } else if "--" <= host {
      EncodeOfDecode(host[2..]);
      LabelOf('-', ToFqdn(host[2..]));
      assert "--" + host[2..] == host;
    } else {
      EncodeOfDecode(host[1..]);
      assert [host[0]] + host[1..] == host;
      if (host[0] as int) < 128 {
        LabelOf(if host[0] == '-' then '.' else host[0], ToFqdn(host[1..]));
      } else {
        LabelOfWide(host[0], ToFqdn(host[1..]));
      }
    }
  }

  lemma DotsApartBehind(c: char, rest: string)
    requires DotsApart(rest) && (c == '.' ==> rest == "" || rest[0] !in {'.', '-'})
    ensures DotsApart([c] + rest)
  {
    var name := [c] + rest;
    forall i | 0 <= i < |name| - 1 && name[i] == '.' ensures name[i + 1] != '.' && name[i + 1] != '-' {
      assert name[i + 1] == rest[i];
      assert i > 0 ==> name[i] == rest[i - 1];
    }
  }

  lemma WideApart(c: char, rest: string)
    requires 128 <= c as int < 256 && DotsApart(rest)
    ensures DotsApart(WriteRune(c) + rest)
  {
    var w := WriteRune(c);
    DotsApartBehind(w[1], rest);
    DotsApartBehind(w[0], [w[1]] + rest);
    assert w + rest == [w[0]] + ([w[1]] + rest);
  }

  lemma {:induction false} DecodeShape(host: string)
    requires IsBytes(host) && '.' !in host
    ensures IsBytes(ToFqdn(host)) && DotsApart(ToFqdn(host))
    ensures host != "" && host[0] != '-' ==> ToFqdn(host) != "" && ToFqdn(host)[0] !in {'.', '-'}
  {
    if host == "" {
    } else if "--" <= host {
      DecodeShape(host[2..]);
      DotsApartBehind('-', ToFqdn(host[2..]));
    } else {
      DecodeShape(host[1..]);
      if (host[0] as int) < 128 {
        DotsApartBehind(if host[0] == '-' then '.' else host[0], ToFqdn(host[1..]));
      } else {
        WideApart(host[0], ToFqdn(host[1..]));
      }
    }
  }

  lemma {:induction false} DecodeWidens(host: string)
    requires IsBytes(host)
    ensures Widened(ToFqdn(host))
  {
    if host == "" {
    } else if "--" <= host {
      DecodeWidens(host[2..]);
      assert ToFqdn(host)[1..] == ToFqdn(host[2..]);
    } else {
      DecodeWidens(host[1..]);
      var rest := ToFqdn(host[1..]);
      if (host[0] as int) < 128 {
        assert ToFqdn(host)[1..] == rest;
      } else {
        assert ToFqdn(host)[2..] == rest;
      }
    }
  }

  lemma {:induction false} EncodeShape(name: string)
    requires IsBytes(name)
    ensures IsBytes(ToLabel(name)) && '.' !in ToLabel(name)
    ensures name != "" ==> ToLabel(name) != "" && (ToLabel(name)[0] == '-' <==> name[0] in {'.', '-'})
  {
    if name == "" {
    } else if IsWidened(name) {
      EncodeShape(name[2..]);
    } else {
      EncodeShape(name[1..]);
    }
  }

  lemma TailApart(name: string, n: nat)
    requires DotsApart(name) && n <= |name|
    ensures DotsApart(name[n..])
  {
    forall i | 0 <= i < |name| - n - 1 && name[n..][i] == '.' ensures name[n..][i + 1] != '.' && name[n..][i + 1] != '-' {
      assert name[n + i] == '.';
    }
  }

  lemma FqdnBehind(c: char, rest: string)
    ensures c != '-' ==> ToFqdn([c] + rest) == WriteRune(c) + ToFqdn(rest)
    ensures rest == "" || rest[0] != '-' ==> ToFqdn("-" + rest) == "." + ToFqdn(rest)
    ensures ToFqdn("--" + rest) == "-" + ToFqdn(rest)
  {
    assert ([c] + rest)[1..] == rest;
    assert ("-" + rest)[1..] == rest;
    assert ("--" + rest)[2..] == rest;
  }

  lemma {:induction false} DecodeOfEncode(name: string)
    requires IsBytes(name) && Decoded(name)
    ensures ToFqdn(ToLabel(name)) == name
  {
    if name == "" {
    } else if IsWidened(name) {
      TailApart(name, 2);
      DecodeOfEncode(name[2..]);
      FqdnBehind(Narrowed(name), ToLabel(name[2..]));
      assert name[..2] + name[2..] == name;
    } else {
      TailApart(name, 1);
      EncodeShape(name[1..]);
      DecodeOfEncode(name[1..]);
      FqdnBehind(name[0], ToLabel(name[1..]));
      assert [name[0]] + name[1..] == name;
    }
  }

  /** A dot-free label decodes to a name exactly when the name is a decoded one and the label its encoding. */
  lemma LabelEncodes(host: string, name: string)
    requires IsBytes(host) && IsBytes(name) && '.' !in host
    ensures ToFqdn(host) == name <==> Decoded(name) && host == ToLabel(name)
  {
    DecodeShape(host);
    DecodeWidens(host);
    EncodeOfDecode(host);
    if Decoded(name) {
      DecodeOfEncode(name);
    }
  }

  /**
    The decoder is a bijection from dot-free labels onto the decoded names, with ToLabel as
    its inverse; decoding after encoding gives the name back exactly on those names.
   */
  lemma DnsLinkBijection()
    ensures forall l | IsBytes(l) && '.' !in l ::
              IsBytes(ToFqdn(l)) && Decoded(ToFqdn(l)) && ToLabel(ToFqdn(l)) == l
    ensures forall n | IsBytes(n) ::
              IsBytes(ToLabel(n)) && '.' !in ToLabel(n) && (ToFqdn(ToLabel(n)) == n <==> Decoded(n))
  {
    forall l | IsBytes(l) && '.' !in l
      ensures IsBytes(ToFqdn(l)) && Decoded(ToFqdn(l)) && ToLabel(ToFqdn(l)) == l
    {
      DecodeShape(l);
      DecodeWidens(l);
      EncodeOfDecode(l);
    }
    forall n | IsBytes(n)
      ensures IsBytes(ToLabel(n)) && '.' !in ToLabel(n) && (ToFqdn(ToLabel(n)) == n <==> Decoded(n))
    {
      EncodeShape(n);
      LabelEncodes(ToLabel(n), n);
    }
  }

  /** On ASCII, the inverse is that of the specification and the names are those without a dot before a dot or a dash. */
  lemma DecodedAscii(name: string)
    requires IsAscii(name)
    ensures Decoded(name) <==> DotsApart(name)
    ensures IsAscii(ToLabel(name)) && ToLabel(name) == PlainLabel(name)
  {
    AsciiIsWidened(name);
    LabelOfAscii(name);
  }

  /** The specification's encoding. */
  function PlainLabel(name: string): string {
    if name == "" then ""
    else (if name[0] == '-' then "--" else if name[0] == '.' then "-" else [name[0]]) + PlainLabel(name[1..])
  }

  lemma {:induction false} LabelOfAscii(name: string)
    requires IsAscii(name)
    ensures IsAscii(ToLabel(name)) && ToLabel(name) == PlainLabel(name)
  {
    if name == "" {
    } else {
      LabelOfAscii(name[1..]);
    }
  }
}
