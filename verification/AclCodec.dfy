/**
 On-disk form of access control lists.  Entries for a named user or group take 8 bytes, the others 4;
 the number of entries is not stored but inferred from the size.
 */
module AclCodec {

  type Byte = b: nat | b < 256

  const VERSION: nat := 1
  const HEADER: nat := 4
  const SHORT: nat := 4
  const FULL: nat := 8

  const USER_OBJ: nat := 0x01
  const USER: nat := 0x02
  const GROUP_OBJ: nat := 0x04
  const GROUP: nat := 0x08
  const MASK: nat := 0x10
  const OTHER: nat := 0x20

  /** An entry; id is meaningful for named users and groups only and 0 otherwise. */
  datatype Entry = Entry(tag: nat, perm: nat, id: nat)

  predicate Named(tag: nat) { tag == USER || tag == GROUP }

  predicate Unnamed(tag: nat) { tag == USER_OBJ || tag == GROUP_OBJ || tag == MASK || tag == OTHER }

  /** The fields fit their widths, and only named entries carry an id. */
  predicate InRange(e: Entry) {
    e.tag < 0x1_0000 && e.perm < 0x1_0000 && e.id < 0x1_0000_0000 && (!Named(e.tag) ==> e.id == 0)
  }

  predicate AllInRange(acl: seq<Entry>) {
    forall i :: 0 <= i < |acl| ==> InRange(acl[i])
  }

  // ----- sizes

  /** f2fs_acl_size. */
  function AclSize(count: nat): nat {
    if count <= 4 then HEADER + count * SHORT else HEADER + 4 * SHORT + (count - 4) * FULL
  }

  /** f2fs_acl_count; the caller has made sure the header is there. */
  function AclCount(size: nat): int
    requires size >= HEADER
  {
    var body := size - HEADER;
    var s := body - 4 * SHORT;
    if s < 0 then
      if body % SHORT != 0 then -1 else body / SHORT
    else
      if s % FULL != 0 then -1 else s / FULL + 4
  }

  /** The two are inverse: a size has a count exactly when it is the size of that many entries. */
  lemma CountInvertsSize(size: nat, count: nat)
    requires size >= HEADER
    ensures AclCount(size) == count <==> size == AclSize(count)
  {
  }

  function Width(tag: nat): nat { if Named(tag) then FULL else SHORT }

  /** Bytes of the entries. */
  function BodySize(acl: seq<Entry>): nat {
    if acl == [] then 0 else BodySize(acl[..|acl| - 1]) + Width(acl[|acl| - 1].tag)
  }

  function Shorts(acl: seq<Entry>): nat {
    if acl == [] then 0 else Shorts(acl[..|acl| - 1]) + if Named(acl[|acl| - 1].tag) then 0 else 1
  }

  lemma {:induction false} BodySizeFromShorts(acl: seq<Entry>)
    ensures Shorts(acl) <= |acl| && BodySize(acl) == FULL * |acl| - 4 * Shorts(acl)
  {
    if acl != [] {
      BodySizeFromShorts(acl[..|acl| - 1]);
    }
  }

  /** f2fs_acl_size names the bytes really written exactly when there are min(count, 4) short entries. */
  lemma SizeIsRight(acl: seq<Entry>)
    ensures HEADER + BodySize(acl) == AclSize(|acl|) <==> Shorts(acl) == if |acl| < 4 then |acl| else 4
  {
    BodySizeFromShorts(acl);
  }

  // ----- valid lists

  ghost predicate AllOf(acl: seq<Entry>, tag: nat) {
    forall i :: 0 <= i < |acl| ==> acl[i].tag == tag
  }

  /**
   Section 23 of POSIX 1003.1e draft 17: owner, users, owning group, groups, mask, other; a named entry needs
   the mask.
   */
  ghost predicate Composed(acl: seq<Entry>, owner: Entry, users: seq<Entry>, owning: Entry, groups: seq<Entry>,
                           mask: seq<Entry>, other: Entry)
  {
    && owner.tag == USER_OBJ && owning.tag == GROUP_OBJ && other.tag == OTHER
    && AllOf(users, USER) && AllOf(groups, GROUP) && AllOf(mask, MASK) && |mask| <= 1
    && (|users| + |groups| > 0 ==> |mask| == 1)
    && acl == ([owner] + users) + ([owning] + groups) + (mask + [other])
  }

  ghost predicate ValidAcl(acl: seq<Entry>) {
    && AllInRange(acl)
    && exists owner, users, owning, groups, mask, other :: Composed(acl, owner, users, owning, groups, mask, other)
  }

  lemma {:induction false} ShortsJoin(a: seq<Entry>, b: seq<Entry>)
    ensures Shorts(a + b) == Shorts(a) + Shorts(b)
  {
    if b == [] {
      assert a + b == a;
    } else {
      assert (a + b)[..|a + b| - 1] == a + b[..|b| - 1];
      ShortsJoin(a, b[..|b| - 1]);
    }
  }

  lemma {:induction false} ShortsOf(acl: seq<Entry>, tag: nat)
    requires AllOf(acl, tag)
    ensures Shorts(acl) == if Named(tag) then 0 else |acl|
  {
    if acl != [] {
      ShortsOf(acl[..|acl| - 1], tag);
    }
  }

  lemma ShortsLed(first: Entry, rest: seq<Entry>, tag: nat)
    requires !Named(first.tag) && AllOf(rest, tag)
    ensures Shorts([first] + rest) == 1 + if Named(tag) then 0 else |rest|
  {
    ShortsJoin([first], rest);
    ShortsOf([first], first.tag);
    ShortsOf(rest, tag);
  }

  /** A valid list has exactly min(count, 4) short entries. */
  lemma ValidHasFourShorts(acl: seq<Entry>)
    requires ValidAcl(acl)
    ensures |acl| >= 3 && Shorts(acl) == if |acl| < 4 then |acl| else 4
    ensures forall i :: 0 <= i < |acl| ==> Named(acl[i].tag) || Unnamed(acl[i].tag)
  {
    var owner, users, owning, groups, mask, other :| Composed(acl, owner, users, owning, groups, mask, other);
    hide Shorts;
    var a, b, c := [owner] + users, [owning] + groups, mask + [other];
    ShortsJoin(a + b, c);
    ShortsJoin(a, b);
    ShortsJoin(mask, [other]);
    ShortsLed(owner, users, USER);
    ShortsLed(owning, groups, GROUP);
    ShortsOf(mask, MASK);
    ShortsOf([other], OTHER);
  }

  // ----- bytes

  /** Little-endian 16 bits. */
  function Le16(x: nat): seq<Byte>
    requires x < 0x1_0000
  {
    [x % 256, x / 256]
  }

  function Le32(x: nat): seq<Byte>
    requires x < 0x1_0000_0000
  {
    Le16(x % 0x1_0000) + Le16(x / 0x1_0000)
  }

  function Get16(b0: Byte, b1: Byte): nat { b0 + 256 * b1 }

  lemma Get16Is(b0: Byte, b1: Byte)
    ensures Get16(b0, b1) % 256 == b0 && Get16(b0, b1) / 256 == b1
  {
  }

  lemma Le16Back(x: nat)
    requires x < 0x1_0000
    ensures Get16(Le16(x)[0], Le16(x)[1]) == x
  {
  }

  lemma Get16Back(b0: Byte, b1: Byte)
    ensures Get16(b0, b1) < 0x1_0000 && Le16(Get16(b0, b1)) == [b0, b1]
  {
  }

  /** An entry on disk. */
  function EntryBytes(e: Entry): seq<Byte>
    requires InRange(e)
  {
    Le16(e.tag) + Le16(e.perm) + if Named(e.tag) then Le32(e.id) else []
  }

  function Body(acl: seq<Entry>): seq<Byte>
    requires AllInRange(acl)
  {
    if acl == [] then [] else Body(acl[..|acl| - 1]) + EntryBytes(acl[|acl| - 1])
  }

  /** The whole list on disk. */
  function Encoded(acl: seq<Entry>): seq<Byte>
    requires AllInRange(acl)
  {
    Le32(VERSION) + Body(acl)
  }

  lemma {:induction false} BodyLength(acl: seq<Entry>)
    requires AllInRange(acl)
    ensures |Body(acl)| == BodySize(acl)
  {
    if acl != [] {
      BodyLength(acl[..|acl| - 1]);
    }
  }

  /** An entry on disk: tag and permissions in two bytes each, and the id of a named one in four, low byte first. */
  lemma EntryLayout(e: Entry)
    requires InRange(e)
    ensures
      var b := EntryBytes(e);
      && |b| == (if e.tag == 2 || e.tag == 8 then 8 else 4)
      && Get16(b[0], b[1]) == e.tag && Get16(b[2], b[3]) == e.perm
      && (e.tag == 2 || e.tag == 8 ==> Get16(b[4], b[5]) + 0x1_0000 * Get16(b[6], b[7]) == e.id)
  {
    Le16Back(e.tag);
    Le16Back(e.perm);
    if Named(e.tag) {
      Le16Back(e.id % 0x1_0000);
      Le16Back(e.id / 0x1_0000);
      var b, c := EntryBytes(e), Le32(e.id);
      assert b[4] == c[0] && b[5] == c[1] && b[6] == c[2] && b[7] == c[3];
    }
  }

  lemma {:induction false} BodyPrefix(acl: seq<Entry>, i: nat)
    requires AllInRange(acl) && i <= |acl|
    ensures BodySize(acl[..i]) <= |Body(acl)| && Body(acl)[..BodySize(acl[..i])] == Body(acl[..i])
    decreases |acl|
  {
    BodyLength(acl[..i]);
    if i == |acl| {
      assert acl[..i] == acl;
    } else {
      var init := acl[..|acl| - 1];
      BodyPrefix(init, i);
      assert init[..i] == acl[..i];
    }
  }

  /** The whole list on disk: version 1 in four bytes, then the entries back to back in order. */
  lemma EncodedLayout(acl: seq<Entry>, i: nat)
    requires AllInRange(acl) && i < |acl|
    ensures
      var v, at := Encoded(acl), 4 + BodySize(acl[..i]);
      && |v| == 4 + BodySize(acl) && v[..4] == [1, 0, 0, 0]
      && at + |EntryBytes(acl[i])| <= |v| && v[at..at + |EntryBytes(acl[i])|] == EntryBytes(acl[i])
  {
    hide EntryBytes, Body, BodySize, Le32, InRange;
    BodyLength(acl);
    BodyLength(acl[..i]);
    BodyLength(acl[..i + 1]);
    BodyPrefix(acl, i + 1);
    BodyStep(acl, i);
    VersionBytes();
    SliceBehind(Le32(VERSION), Body(acl), Body(acl[..i]), EntryBytes(acl[i]));
  }

  lemma VersionBytes()
    ensures Le32(VERSION) == [1, 0, 0, 0]
  {
  }

  /** What follows `before` in a body lies there, moved by the header, in the whole. */
  lemma SliceBehind(header: seq<Byte>, body: seq<Byte>, before: seq<Byte>, part: seq<Byte>)
    requires |before| + |part| <= |body| && body[..|before| + |part|] == before + part
    ensures
      var v, at := header + body, |header| + |before|;
      v[..|header|] == header && v[at..at + |part|] == part
  {
    var at := |before|;
    assert body[at..at + |part|] == body[..at + |part|][at..] == part;
    assert (header + body)[|header| + at..|header| + at + |part|] == body[at..at + |part|];
  }

  predicate KnownTags(acl: seq<Entry>) {
    forall i :: 0 <= i < |acl| ==> Named(acl[i].tag) || Unnamed(acl[i].tag)
  }

  datatype Result<T> = Ok(value: T) | Empty | Invalid

  lemma HeaderLength()
    ensures |Le32(VERSION)| == HEADER
  {
  }

  lemma NoBody()
    ensures Body([]) == []
  {
  }

  lemma BodyStep(acl: seq<Entry>, i: nat)
    requires AllInRange(acl) && i < |acl|
    ensures Body(acl[..i + 1]) == Body(acl[..i]) + EntryBytes(acl[i])
  {
    assert acl[..i + 1][..i] == acl[..i];
  }

  /** f2fs_acl_to_disk: the bytes written and the size reported for them. */
  method ToDisk(acl: seq<Entry>) returns (r: Result<seq<Byte>>, size: nat)
    requires AllInRange(acl)
    ensures r.Ok? <==> KnownTags(acl)
    ensures !r.Ok? ==> r == Invalid
    ensures r.Ok? ==> r.value == Encoded(acl) && size == AclSize(|acl|)
    ensures r.Ok? ==> (|r.value| == size <==> Shorts(acl) == if |acl| < 4 then |acl| else 4)
  {
    hide Body, Shorts, BodySize, Le16, Le32;
    var out := Le32(VERSION);
    size := 0;
    assert acl[..0] == [];
    NoBody();
    for i := 0 to |acl|
      invariant out == Le32(VERSION) + Body(acl[..i]) && KnownTags(acl[..i])
    {
      BodyStep(acl, i);
      out := out + Le16(acl[i].tag) + Le16(acl[i].perm);
      if Named(acl[i].tag) {
        out := out + Le32(acl[i].id);
      } else if !Unnamed(acl[i].tag) {
        return Invalid, 0;
      }
      assert out == Le32(VERSION) + Body(acl[..i + 1]);
    }
    assert acl[..|acl|] == acl;
    BodyLength(acl);
    SizeIsRight(acl);
    HeaderLength();
    return Ok(out), AclSize(|acl|);
  }

  // ----- reading

  /** Memory from the start of the value on; past its end lies something unknown. */
  function Mem(v: seq<Byte>, beyond: nat -> Byte, k: nat): Byte {
    if k < |v| then v[k] else beyond(k)
  }

  function Mem16(v: seq<Byte>, beyond: nat -> Byte, k: nat): nat {
    Get16(Mem(v, beyond, k), Mem(v, beyond, k + 1))
  }

  /** The entry at a position; a tag that is not named carries no id. */
  function EntryAt(v: seq<Byte>, beyond: nat -> Byte, k: nat): Entry {
    var tag := Mem16(v, beyond, k);
    Entry(tag, Mem16(v, beyond, k + 2),
          if Named(tag) then Mem16(v, beyond, k + 4) + 0x1_0000 * Mem16(v, beyond, k + 6) else 0)
  }

  function Prepend(done: seq<Entry>, r: Result<seq<Entry>>): Result<seq<Entry>> {
    if r.Ok? then Ok(done + r.value) else r
  }

  /** Reading `count` entries from position cur; the last must end where the value ends. */
  function Parse(v: seq<Byte>, beyond: nat -> Byte, cur: nat, count: nat): Result<seq<Entry>>
    decreases count
  {
    if count == 0 then
      if cur == |v| then Ok([]) else Invalid
    else if cur > |v| then Invalid
    else
      var e := EntryAt(v, beyond, cur);
      if Named(e.tag) || Unnamed(e.tag) then Prepend([e], Parse(v, beyond, cur + Width(e.tag), count - 1))
      else Invalid
  }

  function Decode(v: seq<Byte>, beyond: nat -> Byte): Result<seq<Entry>> {
    if |v| < HEADER || v[..HEADER] != Le32(VERSION) || AclCount(|v|) < 0 then Invalid
    else if AclCount(|v|) == 0 then Empty
    else Parse(v, beyond, HEADER, AclCount(|v|))
  }

  lemma ParseStep(v: seq<Byte>, beyond: nat -> Byte, cur: nat, count: nat)
    requires count > 0
    ensures
      var e := EntryAt(v, beyond, cur);
      Parse(v, beyond, cur, count) ==
        if cur <= |v| && (Named(e.tag) || Unnamed(e.tag))
        then Prepend([e], Parse(v, beyond, cur + Width(e.tag), count - 1))
        else Invalid
  {
  }

  lemma ParseEnd(v: seq<Byte>, beyond: nat -> Byte, cur: nat)
    ensures Parse(v, beyond, cur, 0) == if cur == |v| then Ok([]) else Invalid
  {
  }

  /** f2fs_acl_from_disk. */
  method FromDisk(v: seq<Byte>, beyond: nat -> Byte) returns (r: Result<seq<Entry>>)
    ensures r == Decode(v, beyond)
  {
    hide Parse, EntryAt;
    if |v| < HEADER || v[..HEADER] != Le32(VERSION) {
      return Invalid;
    }
    var count := AclCount(|v|);
    if count < 0 {
      return Invalid;
    }
    if count == 0 {
      return Empty;
    }
    var acl: seq<Entry>, cur: nat := [], HEADER;
    ghost var whole := Parse(v, beyond, HEADER, count);
    PrependNothing(whole);
    for i := 0 to count
      invariant |acl| == i && whole == Prepend(acl, Parse(v, beyond, cur, count - i))
    {
      ParseStep(v, beyond, cur, count - i);
      if cur > |v| {
        return Invalid;
      }
      var e := EntryAt(v, beyond, cur);
      PrependMore(acl, e, Parse(v, beyond, cur + Width(e.tag), count - i - 1));
      if Unnamed(e.tag) {
        cur := cur + SHORT;
      } else if Named(e.tag) {
        cur := cur + FULL;
      } else {
        return Invalid;
      }
      acl := acl + [e];
    }
    ParseEnd(v, beyond, cur);
    if cur != |v| {
      return Invalid;
    }
    assert acl + [] == acl;
    return Ok(acl);
  }

  lemma PrependNothing(r: Result<seq<Entry>>)
    ensures Prepend([], r) == r
  {
    if r.Ok? {
      assert [] + r.value == r.value;
    }
  }

  lemma PrependMore(done: seq<Entry>, e: Entry, r: Result<seq<Entry>>)
    ensures Prepend(done, Prepend([e], r)) == Prepend(done + [e], r)
  {
    if r.Ok? {
      assert done + ([e] + r.value) == done + [e] + r.value;
    }
  }

  // ----- round trip

  lemma {:induction false} BodyFront(e: Entry, rest: seq<Entry>)
    requires InRange(e) && AllInRange(rest)
    ensures AllInRange([e] + rest) && Body([e] + rest) == EntryBytes(e) + Body(rest)
  {
    hide EntryBytes, InRange;
    var acl := [e] + rest;
    if rest == [] {
      assert acl[..0] == [];
    } else {
      assert acl[..|acl| - 1] == [e] + rest[..|rest| - 1];
      BodyFront(e, rest[..|rest| - 1]);
    }
  }

  /** An entry read inside the value is the entry written there, and only that one. */
  lemma EntryReadBack(v: seq<Byte>, beyond: nat -> Byte, k: nat, e: Entry)
    requires InRange(e) && k + Width(e.tag) <= |v| && v[k..k + Width(e.tag)] == EntryBytes(e)
    ensures EntryAt(v, beyond, k) == e
  {
    var w := v[k..k + Width(e.tag)];
    Le16Back(e.tag);
    Le16Back(e.perm);
    assert v[k] == w[0] && v[k + 1] == w[1] && v[k + 2] == w[2] && v[k + 3] == w[3];
    if Named(e.tag) {
      assert v[k + 4] == w[4] && v[k + 5] == w[5] && v[k + 6] == w[6] && v[k + 7] == w[7];
      Le16Back(e.id % 0x1_0000);
      Le16Back(e.id / 0x1_0000);
    }
  }

  lemma Le32Of(lo: nat, hi: nat)
    requires lo < 0x1_0000 && hi < 0x1_0000
    ensures var x := lo + 0x1_0000 * hi; x < 0x1_0000_0000 && Le32(x) == Le16(lo) + Le16(hi)
  {
    hide Le16;
    var x := lo + 0x1_0000 * hi;
    assert x / 0x1_0000 == hi && x % 0x1_0000 == lo;
  }

  lemma Mem16Inside(v: seq<Byte>, beyond: nat -> Byte, k: nat)
    requires k + 2 <= |v|
    ensures Mem16(v, beyond, k) < 0x1_0000 && Le16(Mem16(v, beyond, k)) == v[k..k + 2]
  {
    Get16Back(v[k], v[k + 1]);
  }

  lemma EntryWrittenBack(v: seq<Byte>, beyond: nat -> Byte, k: nat)
    requires var e := EntryAt(v, beyond, k); k + Width(e.tag) <= |v|
    ensures var e := EntryAt(v, beyond, k); InRange(e) && v[k..k + Width(e.tag)] == EntryBytes(e)
  {
    hide Mem16, Le16, Le32;
    var e := EntryAt(v, beyond, k);
    Mem16Inside(v, beyond, k);
    Mem16Inside(v, beyond, k + 2);
    if Named(e.tag) {
      Mem16Inside(v, beyond, k + 4);
      Mem16Inside(v, beyond, k + 6);
      Le32Of(Mem16(v, beyond, k + 4), Mem16(v, beyond, k + 6));
    }
  }

  lemma {:induction false} ParseSound(v: seq<Byte>, beyond: nat -> Byte, cur: nat, count: nat)
    requires Parse(v, beyond, cur, count).Ok?
    ensures
      var acl := Parse(v, beyond, cur, count).value;
      cur <= |v| && |acl| == count && AllInRange(acl) && KnownTags(acl) && v[cur..] == Body(acl)
    decreases count
  {
    hide EntryAt, EntryBytes, InRange;
    if count > 0 {
      var e := EntryAt(v, beyond, cur);
      var next := cur + Width(e.tag);
      ParseSound(v, beyond, next, count - 1);
      EntryWrittenBack(v, beyond, cur);
      var rest := Parse(v, beyond, next, count - 1).value;
      BodyFront(e, rest);
      assert v[cur..] == v[cur..next] + v[next..];
    }
  }

  lemma {:induction false} ParseComplete(v: seq<Byte>, beyond: nat -> Byte, cur: nat, acl: seq<Entry>)
    requires cur <= |v| && AllInRange(acl) && KnownTags(acl) && v[cur..] == Body(acl)
    ensures Parse(v, beyond, cur, |acl|) == Ok(acl)
    decreases |acl|
  {
    if acl != [] {
      var e, rest := acl[0], acl[1..];
      assert acl == [e] + rest;
      BodyFront(e, rest);
      var next := cur + Width(e.tag);
      assert v[cur..next] == v[cur..][..Width(e.tag)] == EntryBytes(e);
      assert v[next..] == v[cur..][Width(e.tag)..] == Body(rest);
      EntryReadBack(v, beyond, cur, e);
      ParseComplete(v, beyond, next, rest);
    }
  }

  /**
   The decoder accepts a value as a list exactly when the value is the encoding of that list and the
   count inferred from its size is right.  In particular what lies past the end never matters.
   */
  lemma DecodeExactly(v: seq<Byte>, beyond: nat -> Byte, acl: seq<Entry>)
    ensures Decode(v, beyond) == Ok(acl) <==>
      acl != [] && AllInRange(acl) && KnownTags(acl) && v == Encoded(acl) &&
        Shorts(acl) == if |acl| < 4 then |acl| else 4
  {
    if Decode(v, beyond) == Ok(acl) {
      ParseSound(v, beyond, HEADER, AclCount(|v|));
      assert v == v[..HEADER] + v[HEADER..];
    }
    if AllInRange(acl) && v == Encoded(acl) {
      BodyLength(acl);
      SizeIsRight(acl);
      CountInvertsSize(|v|, |acl|);
      assert v[..HEADER] == Le32(VERSION) && v[HEADER..] == Body(acl);
      if KnownTags(acl) {
        ParseComplete(v, beyond, HEADER, acl);
      }
    }
  }

  /** Round trip: every valid list is read back as written, and the reported size is the number of bytes. */
  lemma RoundTrip(acl: seq<Entry>, beyond: nat -> Byte)
    requires ValidAcl(acl)
    ensures Decode(Encoded(acl), beyond) == Ok(acl) && |Encoded(acl)| == AclSize(|acl|)
  {
    ValidHasFourShorts(acl);
    DecodeExactly(Encoded(acl), beyond, acl);
    BodyLength(acl);
    SizeIsRight(acl);
  }
}
