/**
 Registry signatures under ideal cryptography: a hash never collides and a signature is
 on one message.  What the framing of sign.go and sign.js binds is proved from that.
 */
module Sign {
  import opened Utf

  type Key = seq<Byte>

  const PUBLIC_KEY_SIZE := 32
  const LINE_FEED: char := '\n'

  // text is the UTF-8 encoding of a string, hash the hexadecimal SHA-256 of a byte
  // string, valid the ed25519 check against a public key.
  datatype Crypto = Crypto(
    text: string -> seq<Byte>,
    hash: seq<Byte> -> string,
    valid: (Key, seq<Byte>, seq<Byte>) -> bool)

  ghost predicate Ideal(c: Crypto) {
    && (forall s, t :: c.text(s) == c.text(t) ==> s == t)
    && (forall a, b :: c.hash(a) == c.hash(b) ==> a == b)
    && (forall a :: LINE_FEED !in c.hash(a))
    && (forall s :: 10 in c.text(s) <==> LINE_FEED in s)
    && (forall k, l, a, b, sig :: c.valid(k, a, sig) && c.valid(l, b, sig) ==> a == b)
  }

  function Framed(name: string, version: string, sha: string): string {
    name + [LINE_FEED] + version + [LINE_FEED] + sha
  }

  // The bytes the registry signs for an artifact.
  function SignedMessage(c: Crypto, name: string, version: string, sha: string): seq<Byte> {
    c.text(Framed(name, version, sha))
  }

  predicate Pinned(c: Crypto, keys: seq<Key>, message: seq<Byte>, sig: seq<Byte>) {
    exists i :: 0 <= i < |keys| && |keys[i]| == PUBLIC_KEY_SIZE && c.valid(keys[i], message, sig)
  }

  // verify and verifyIndex: the loop over the pinned keys.
  method Verify(c: Crypto, keys: seq<Key>, message: seq<Byte>, sig: seq<Byte>) returns (ok: bool)
    ensures ok <==> Pinned(c, keys, message, sig)
    ensures ok <==> exists i :: 0 <= i < |keys| && |keys[i]| == 32 && c.valid(keys[i], message, sig)
  {
    for i := 0 to |keys|
      invariant forall k :: 0 <= k < i ==> !(|keys[k]| == PUBLIC_KEY_SIZE && c.valid(keys[k], message, sig))
    {
      if |keys[i]| == PUBLIC_KEY_SIZE && c.valid(keys[i], message, sig) {
        return true;
      }
    }
    return false;
  }

  // Nothing after position i of s is c.
  ghost predicate LastCut(s: string, c: char, i: nat) {
    i < |s| && s[i] == c && forall k :: i < k < |s| ==> s[k] != c
  }

  lemma CutIsLast(c: char, a: string, b: string)
    requires c !in b
    ensures LastCut(a + [c] + b, c, |a|)
  {
    var s := a + [c] + b;
    forall k | |a| < k < |s| ensures s[k] != c {
      assert s[k] == b[k - |a| - 1] && b[k - |a| - 1] in b;
    }
  }

  // Two cuts of one text at one character agree when neither last part holds one.
  lemma CutLast(c: char, a: string, b: string, x: string, y: string)
    requires a + [c] + b == x + [c] + y
    requires c !in b && c !in y
    ensures a == x && b == y
  {
    var s := a + [c] + b;
    CutIsLast(c, a, b);
    CutIsLast(c, x, y);
    assert s == x + [c] + y;
    assert s[..|a|] == a && s[..|x|] == x && s[|a| + 1..] == b && s[|x| + 1..] == y;
  }

  // The hash is always bound; name and version only as the text around one line feed.
  lemma FramingBindsHash(n: string, v: string, s: string, n': string, v': string, s': string)
    requires LINE_FEED !in s && LINE_FEED !in s'
    ensures Framed(n, v, s) == Framed(n', v', s') <==>
              s == s' && n + [LINE_FEED] + v == n' + [LINE_FEED] + v'
  {
    if Framed(n, v, s) == Framed(n', v', s') {
      CutLast(LINE_FEED, n + [LINE_FEED] + v, s, n' + [LINE_FEED] + v', s');
    }
  }

  // Another name and version share the message of this one.
  ghost predicate Ambiguous(n: string, v: string) {
    exists n', v' :: (n', v') != (n, v) && n' + [LINE_FEED] + v' == n + [LINE_FEED] + v
  }

  lemma SplitAt(s: string)
    requires LINE_FEED in s
    ensures exists k :: 0 <= k < |s| && s == s[..k] + [LINE_FEED] + s[k + 1..]
  {
    var k :| 0 <= k < |s| && s[k] == LINE_FEED;
    assert s == s[..k] + [LINE_FEED] + s[k + 1..];
  }

  // A name and version are bound exactly when neither holds a line feed.
  lemma BoundExactly(n: string, v: string)
    ensures Ambiguous(n, v) <==> LINE_FEED in n || LINE_FEED in v
  {
    var all := n + [LINE_FEED] + v;
    if LINE_FEED in n {
      SplitAt(n);
      var k :| 0 <= k < |n| && n == n[..k] + [LINE_FEED] + n[k + 1..];
      var x, y := n[..k], n[k + 1..] + [LINE_FEED] + v;
      assert x + [LINE_FEED] + y == all;
      assert (x, y) != (n, v);
    } else if LINE_FEED in v {
      SplitAt(v);
      var k :| 0 <= k < |v| && v == v[..k] + [LINE_FEED] + v[k + 1..];
      var x, y := n + [LINE_FEED] + v[..k], v[k + 1..];
      assert x + [LINE_FEED] + y == all;
      assert (x, y) != (n, v);
    } else {
      forall x: string, y: string | x + [LINE_FEED] + y == all ensures (x, y) == (n, v) {
        OneCut(n, v, x, y);
      }
    }
  }

  lemma OneCut(n: string, v: string, x: string, y: string)
    requires LINE_FEED !in n && LINE_FEED !in v
    requires x + [LINE_FEED] + y == n + [LINE_FEED] + v
    ensures x == n && y == v
  {
    var s, t := n + [LINE_FEED] + v, x + [LINE_FEED] + y;
    assert s[|x|] == t[|x|] == LINE_FEED;
    assert forall i :: 0 <= i < |n| ==> s[i] == n[i] && s[i] != LINE_FEED;
    assert forall i :: |n| < i < |s| ==> s[i] == v[i - |n| - 1] && s[i] != LINE_FEED;
    assert s[..|n|] == n && t[..|x|] == x && s[|n| + 1..] == v && t[|x| + 1..] == y;
  }

  // Two artifacts with different names can share a signed message.
  lemma FramingIsNotInjective()
    ensures Framed("a\nb", "c", "0") == Framed("a", "b\nc", "0")
  {
    assert Framed("a\nb", "c", "0") == "a\nb\nc\n0";
    assert Framed("a", "b\nc", "0") == "a\nb\nc\n0";
  }

  lemma MessageBinds(c: Crypto, n: string, v: string, src: seq<Byte>, n': string, v': string, src': seq<Byte>)
    requires Ideal(c) && LINE_FEED !in n && LINE_FEED !in v
    requires SignedMessage(c, n', v', c.hash(src')) == SignedMessage(c, n, v, c.hash(src))
    ensures n' == n && v' == v && src' == src
  {
    FramingBindsHash(n', v', c.hash(src'), n, v, c.hash(src));
    OneCut(n, v, n', v');
  }

  // A signature on a publication without line feeds validates, under any key, only for
  // that name, version and source.
  lemma SignatureBinds(
    c: Crypto, k: Key, n: string, v: string, src: seq<Byte>, sig: seq<Byte>,
    l: Key, n': string, v': string, src': seq<Byte>)
    requires Ideal(c) && LINE_FEED !in n && LINE_FEED !in v
    requires c.valid(k, SignedMessage(c, n, v, c.hash(src)), sig)
    requires c.valid(l, SignedMessage(c, n', v', c.hash(src')), sig)
    ensures n' == n && v' == v && src' == src
  {
    hide SignedMessage;
    assert SignedMessage(c, n', v', c.hash(src')) == SignedMessage(c, n, v, c.hash(src));
    MessageBinds(c, n, v, src, n', v', src');
  }
}
