/** The window scan for a TLS server name. */
module Sni {
  import opened Bytes
  import opened Wire
  import opened Protocol
  import Utf8

  /** "unknown.host" */
  const UNKNOWN_HOST: seq<Byte> := [0x75, 0x6E, 0x6B, 0x6E, 0x6F, 0x77, 0x6E, 0x2E, 0x68, 0x6F, 0x73, 0x74]
  const HTTPS_PORT: U16 := 443
  /** Bytes looked at in the first flight. */
  const PEEK_LIMIT: nat := 512

  predicate LooksLikeHello(data: seq<Byte>) {
    |data| >= 43 && data[0] == 0x16
  }

  predicate ZeroWindow(data: seq<Byte>, i: nat) {
    i + 4 <= |data| && data[i] == 0 && data[i + 1] == 0 && data[i + 2] == 0 && data[i + 3] == 0
  }

  lemma WindowSlice(data: seq<Byte>, i: nat)
    requires i + 4 <= |data|
    ensures ZeroWindow(data, i) <==> data[i..i + 4] == [0x00, 0x00, 0x00, 0x00]
  {
    var w := data[i..i + 4];
    assert w[0] == data[i] && w[1] == data[i + 1] && w[2] == data[i + 2] && w[3] == data[i + 3];
  }

  /** A window at `i` yields a name: its length byte fits and the bytes behind it are text. */
  predicate Yields(data: seq<Byte>, i: nat) {
    && i + 10 < |data|
    && ZeroWindow(data, i)
    && i + 10 + data[i + 9] <= |data|
    && Utf8.Valid(data[i + 10..i + 10 + data[i + 9]])
  }

  function NameAt(data: seq<Byte>, i: nat): seq<Byte>
    requires Yields(data, i)
  {
    data[i + 10..i + 10 + data[i + 9]]
  }

  /**
   A window yields exactly when four zero bytes, five more, a length byte, as many bytes of text and, with them, at
   least one byte follow each other there.
   */
  lemma YieldsExactly(data: seq<Byte>, i: nat)
    ensures Yields(data, i) <==> exists pre, five, name, post :: IsWindow(data, i, pre, five, name, post)
    ensures forall pre, five, name, post :: IsWindow(data, i, pre, five, name, post) ==> NameAt(data, i) == name
  {
    hide Utf8.Valid;
    forall pre, five, name, post | IsWindow(data, i, pre, five, name, post)
      ensures Yields(data, i) && NameAt(data, i) == name
    {
      WindowYields(data, i, pre, five, name, post);
    }
    if Yields(data, i) {
      var n: nat := data[i + 9];
      var pre, five, name, post := data[..i], data[i + 4..i + 9], data[i + 10..i + 10 + n], data[i + 10 + n..];
      assert data == pre + ([0x00, 0x00, 0x00, 0x00] + five + [n]) + (name + post);
      assert IsWindow(data, i, pre, five, name, post);
    }
  }

  ghost predicate IsWindow(data: seq<Byte>, i: nat, pre: seq<Byte>, five: seq<Byte>, name: seq<Byte>, post: seq<Byte>) {
    && |pre| == i && |five| == 5 && |name| < 256 && Utf8.Valid(name) && name + post != []
    && data == pre + ([0x00, 0x00, 0x00, 0x00] + five + [|name|]) + (name + post)
  }

  lemma WindowYields(data: seq<Byte>, i: nat, pre: seq<Byte>, five: seq<Byte>, name: seq<Byte>, post: seq<Byte>)
    requires IsWindow(data, i, pre, five, name, post)
    ensures Yields(data, i) && NameAt(data, i) == name
  {
    hide Utf8.Valid;
    var head := [0x00, 0x00, 0x00, 0x00] + five + [|name|];
    HeadAt(pre, head, name + post);
    NameBehind(pre + head, name, post);
    assert head[9] == |name|;
    assert data[i] == head[0] && data[i + 1] == head[1] && data[i + 2] == head[2] && data[i + 3] == head[3];
    assert data[i + 9] == head[9];
  }

  /** The answer is the name of the first yielding window, and none exactly when there is none. */
  ghost predicate IsSni(data: seq<Byte>, r: Option<seq<Byte>>) {
    match r
    case None => |data| < 43 || data[0] != 0x16 || forall i: nat :: !Yields(data, i)
    case Some(name) =>
      |data| >= 43 && data[0] == 0x16
      && exists i: nat :: Yields(data, i) && name == NameAt(data, i) && forall j: nat :: j < i ==> !Yields(data, j)
  }

  /** `extract_sni_from_tls`. */
  method ExtractSni(data: seq<Byte>) returns (r: Option<seq<Byte>>)
    ensures IsSni(data, r)
  {
    if |data| < 43 || data[0] != 0x16 { return None; }
    for i := 0 to |data| - 10
      invariant forall j: nat :: j < i ==> !Yields(data, j)
    {
      WindowSlice(data, i);
      if data[i..i + 4] == [0x00, 0x00, 0x00, 0x00] {
        var length := data[i + 9];
        if i + 10 + length <= |data| && Utf8.Valid(data[i + 10..i + 10 + length]) {
          assert Yields(data, i);
          return Some(data[i + 10..i + 10 + length]);
        }
      }
    }
    r := None;
  }

  /** The scan as a function, for use in specifications. */
  function SniFrom(data: seq<Byte>, i: nat): Option<seq<Byte>>
    decreases |data| - i
  {
    if i + 10 >= |data| then None
    else if Yields(data, i) then Some(NameAt(data, i))
    else SniFrom(data, i + 1)
  }

  function Sni(data: seq<Byte>): Option<seq<Byte>> {
    if LooksLikeHello(data) then SniFrom(data, 0) else None
  }

  lemma {:induction false} SniFromSteps(data: seq<Byte>, i: nat, first: nat)
    requires i <= first && Yields(data, first)
    requires forall j: nat :: i <= j < first ==> !Yields(data, j)
    ensures SniFrom(data, i) == Some(NameAt(data, first))
    decreases first - i
  {
    if i < first {
      SniFromSteps(data, i + 1, first);
    }
  }

  lemma {:induction false} SniFromNone(data: seq<Byte>, i: nat)
    requires forall j: nat :: i <= j ==> !Yields(data, j)
    ensures SniFrom(data, i).None?
    decreases |data| - i
  {
    if i + 10 < |data| {
      SniFromNone(data, i + 1);
    }
  }

  /** The relation determines the answer, so the loop computes the recursive scan. */
  lemma SniIsUnique(data: seq<Byte>, r: Option<seq<Byte>>)
    requires IsSni(data, r)
    ensures r == Sni(data)
  {
    if LooksLikeHello(data) {
      if r.Some? {
        var i: nat :| Yields(data, i) && r.value == NameAt(data, i) && forall j: nat :: j < i ==> !Yields(data, j);
        SniFromSteps(data, 0, i);
      } else {
        SniFromNone(data, 0);
      }
    }
  }

  // --------------------------------------------- section 3 of RFC 6066

  /** A server_name extension with a single host name, short enough for one-byte lengths. */
  function Extension(name: seq<Byte>): seq<Byte>
    requires 1 <= |name| <= 250
  {
    [0x00, 0x00, 0x00, |name| + 5, 0x00, |name| + 3, 0x00, 0x00, |name|] + name
  }

  /** No zero window starts inside the nine bytes in front of the host name. */
  lemma NoWindowInside(pre: seq<Byte>, name: seq<Byte>, post: seq<Byte>, i: nat)
    requires 1 <= |name| <= 250 && |pre| <= i < |pre| + 9
    ensures !ZeroWindow(pre + Extension(name) + post, i)
  {
    var data := pre + Extension(name) + post;
    assert data[|pre| + 3] == |name| + 5;
    assert data[|pre| + 5] == |name| + 3;
    assert data[|pre| + 8] == |name|;
  }

  /** With a zero byte in front of it, an extension is read by the window starting at that byte. */
  lemma ExtensionFound(pre: seq<Byte>, name: seq<Byte>, post: seq<Byte>)
    requires 1 <= |name| <= 250 && Utf8.Valid(name)
    ensures Yields(pre + [0x00] + Extension(name) + post, |pre|)
    ensures NameAt(pre + [0x00] + Extension(name) + post, |pre|) == name
  {
    hide Utf8.Valid;
    var head := [0x00, 0x00, 0x00, 0x00, |name| + 5, 0x00, |name| + 3, 0x00, 0x00, |name|];
    ZeroThenExtension(pre, head, name, post);
    HeadAt(pre, head, name + post);
    NameBehind(pre + head, name, post);
    hide Extension;
    var data := pre + head + (name + post);
    assert data[|pre|] == head[0] && data[|pre| + 1] == head[1] && data[|pre| + 2] == head[2];
    assert data[|pre| + 3] == head[3] && data[|pre| + 9] == head[9];
  }

  lemma ZeroThenExtension(pre: seq<Byte>, head: seq<Byte>, name: seq<Byte>, post: seq<Byte>)
    requires 1 <= |name| <= 250
    requires head == [0x00, 0x00, 0x00, 0x00, |name| + 5, 0x00, |name| + 3, 0x00, 0x00, |name|]
    ensures pre + [0x00] + Extension(name) + post == pre + head + (name + post)
  {
    assert [0x00] + Extension(name) == head + name;
    hide Extension;
    Associate(pre, [0x00], Extension(name));
    Associate(pre, head, name);
    Associate(pre + head, name, post);
  }

  lemma HeadAt(pre: seq<Byte>, head: seq<Byte>, rest: seq<Byte>)
    ensures forall k :: 0 <= k < |head| ==> (pre + head + rest)[|pre| + k] == head[k]
  {
  }

  lemma NameBehind(front: seq<Byte>, name: seq<Byte>, post: seq<Byte>)
    ensures (front + (name + post))[|front|..|front| + |name|] == name
  {
  }

  /** Without one, no window that touches the nine bytes in front of the name yields anything. */
  lemma ExtensionMissed(pre: seq<Byte>, b: Byte, name: seq<Byte>, post: seq<Byte>, i: nat)
    requires 1 <= |name| <= 250 && b != 0
    requires |pre| <= i + 3 && i < |pre| + 10
    ensures !Yields(pre + [b] + Extension(name) + post, i)
  {
    var data := pre + [b] + Extension(name) + post;
    assert data[|pre|] == b;
    if |pre| < i {
      NoWindowInside(pre + [b], name, post, i);
    }
  }

  lemma ExtensionName(pre: seq<Byte>, name: seq<Byte>, post: seq<Byte>)
    requires 1 <= |name| <= 250 && Utf8.Valid(name)
    requires |pre + [0x00] + Extension(name) + post| >= 43 && (pre + [0x00] + Extension(name) + post)[0] == 0x16
    requires forall j: nat :: j < |pre| ==> !Yields(pre + [0x00] + Extension(name) + post, j)
    ensures Sni(pre + [0x00] + Extension(name) + post) == Some(name)
  {
    ExtensionFound(pre, name, post);
    SniFromSteps(pre + [0x00] + Extension(name) + post, 0, |pre|);
  }

  // ------------------------------------------------- target of a TLS client

  /** `parse_https_target_from_stream` on a plain stream: it only peeks, so the hello stays unread. */
  function Parse(c: Conn, visible: nat): Parsed {
    var sni := Sni(Peeked(c, PEEK_LIMIT, visible));
    (Ok(Target(Name(if sni.Some? then sni.value else UNKNOWN_HOST), HTTPS_PORT)), c)
  }

  method ParseTarget(stream: ClientStream, visible: nat) returns (r: Result<Target, Fault>)
    requires stream.Valid()
    ensures (r, stream.View()) == Parse(stream.View(), visible)
  {
    var data := stream.Peek(PEEK_LIMIT, visible);
    var sni := ExtractSni(data);
    SniIsUnique(data, sni);
    r := Ok(Target(Name(if sni.Some? then sni.value else UNKNOWN_HOST), HTTPS_PORT));
  }
}
