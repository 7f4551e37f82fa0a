/** Descriptor blocks of the journal as 32-bit words: tags written and read back.
    Models jbd_write_block_tag and jbd_extract_block_tag of lwext4/src/ext4_journal.c. */
module JournalTags {
  import opened Common

  const MAGIC: nat := 0xc03b3998
  const DESCRIPTOR: nat := 1
  const COMMIT: nat := 2
  const REVOKE: nat := 5
  const WORD: nat := 0x1_0000_0000

  /** Words of a block header (magic, type, sequence), and of a UUID. */
  const HEADER: nat := 3
  const UUID: nat := 4

  /** One tag: the home block, whether the logged copy lost its magic word, whether it is the last
      tag of the transaction, and whether a UUID follows it. */
  datatype Tag = Tag(block: nat, escape: bool, last: bool, uuid: bool)

  /** Words of a tag without UUID: jbd_tag_bytes, without checksum features. */
  function TagWords(wide: bool): nat {
    if wide then 3 else 2
  }

  function TagSize(wide: bool, t: Tag): nat {
    TagWords(wide) + if t.uuid then UUID else 0
  }

  /** The 16 flag bits, below a checksum of 0. */
  function Flags(t: Tag): nat {
    (if t.escape then 1 else 0) + (if t.uuid then 0 else 2) + (if t.last then 8 else 0)
  }

  /** Reads the tag at word at: jbd_extract_block_tag. */
  function GetTag(wide: bool, b: Block, at: nat): Option<Tag> {
    if |b| < at + TagWords(wide) then None else
      var flags := b[at + 1] % 0x1_0000;
      var uuid := flags / 2 % 2 == 0;
      if uuid && |b| < at + TagWords(wide) + UUID then None else
        Some(Tag(b[at] + (if wide then b[at + 2] * WORD else 0), flags % 2 == 1, flags / 8 % 2 == 1, uuid))
  }

  /** All tags from word at on: what jbd_iterate_block_table hands to its callback. */
  function ReadTags(wide: bool, b: Block, at: nat): seq<Tag>
    decreases |b| - at
  {
    match GetTag(wide, b, at)
    case None => []
    case Some(t) => [t] + if t.last then [] else ReadTags(wide, b, at + TagSize(wide, t))
  }

  /** The words from..to hold exactly these tags. */
  ghost predicate TagsAt(wide: bool, b: Block, from: nat, tags: seq<Tag>, to: nat)
    decreases |tags|
  {
    if tags == [] then from == to else
      && GetTag(wide, b, from) == Some(tags[0])
      && TagsAt(wide, b, from + TagSize(wide, tags[0]), tags[1..], to)
  }

  lemma {:induction false} FlagBits(t: Tag)
    ensures var f := Flags(t);
            f < 0x1_0000 && (f % 2 == 1) == t.escape && (f / 2 % 2 == 0) == t.uuid && (f / 8 % 2 == 1) == t.last
  {
  }

  /** A block number fits a tag: without 64-bit support only 32 bits are stored. */
  predicate Fits(wide: bool, block: nat) {
    block < if wide then WORD * WORD else WORD
  }

  lemma {:induction false} SplitWord(block: nat)
    requires block < WORD * WORD
    ensures block / WORD < WORD && block % WORD + block / WORD % WORD * WORD == block
  {
  }

  lemma {:induction false} TagRead(wide: bool, b: Block, at: nat, t: Tag)
    requires at + TagSize(wide, t) <= |b| && b[at + 1] == Flags(t)
    requires t.block == b[at] + if wide then b[at + 2] * WORD else 0
    ensures GetTag(wide, b, at) == Some(t)
  {
    FlagBits(t);
  }

  /** Writes tag t at word at of a descriptor: jbd_write_block_tag. The fixed part is cleared with
      the size of the 64-bit tag, one word more than a 32-bit tag has. */
  method WriteTag(wide: bool, desc: array<nat>, at: nat, t: Tag, uuid: seq<nat>) returns (ok: bool)
    requires at <= desc.Length && |uuid| == UUID && Fits(wide, t.block)
    requires at + TagWords(wide) <= desc.Length ==> at + 3 <= desc.Length
    modifies desc
    ensures ok == (at + TagSize(wide, t) <= desc.Length)
    ensures desc[..at] == old(desc[..at])
    ensures ok ==> GetTag(wide, desc[..], at) == Some(t)
    ensures ok ==>
              && desc[at] == t.block % 0x1_0000_0000 && (wide ==> desc[at + 2] == t.block / 0x1_0000_0000)
              && desc[at + 1] == (if t.escape then 1 else 0) + (if t.uuid then 0 else 2) + (if t.last then 8 else 0)
    ensures !ok && !t.uuid ==> desc[..] == old(desc[..])
  {
    hide GetTag;
    if desc.Length < at + TagWords(wide) {
      return false;
    }
    desc[at], desc[at + 1], desc[at + 2] := 0, 0, 0;
    desc[at] := t.block % WORD;
    if wide {
      desc[at + 2] := t.block / WORD % WORD;
    }
    if t.uuid {
      if desc.Length < at + TagWords(wide) + UUID {
        return false;
      }
      var start := at + TagWords(wide);
      desc[start], desc[start + 1], desc[start + 2], desc[start + 3] := uuid[0], uuid[1], uuid[2], uuid[3];
    } else {
      desc[at + 1] := desc[at + 1] + 2;
    }
    if t.last {
      desc[at + 1] := desc[at + 1] + 8;
    }
    if t.escape {
      desc[at + 1] := desc[at + 1] + 1;
    }
    if wide {
      SplitWord(t.block);
    }
    TagRead(wide, desc[..], at, t);
    return true;
  }

  /** Reading a tag depends only on its own words. */
  lemma {:induction false} GetTagSame(wide: bool, b: Block, b': Block, at: nat, t: Tag)
    requires GetTag(wide, b, at) == Some(t) && |b'| == |b|
    requires b'[..at + TagSize(wide, t)] == b[..at + TagSize(wide, t)]
    ensures GetTag(wide, b', at) == Some(t)
  {
    var n := at + TagSize(wide, t);
    assert b'[..n][at] == b[..n][at] && b'[..n][at + 1] == b[..n][at + 1];
    if wide {
      assert b'[..n][at + 2] == b[..n][at + 2];
    }
  }

  lemma {:induction false} TagsAtSame(wide: bool, b: Block, b': Block, from: nat, tags: seq<Tag>, to: nat)
    requires TagsAt(wide, b, from, tags, to) && |b'| == |b| && to <= |b| && b'[..to] == b[..to]
    ensures TagsAt(wide, b', from, tags, to) && from <= to
    decreases |tags|
  {
    if tags != [] {
      var next := from + TagSize(wide, tags[0]);
      TagsAtSame(wide, b, b', next, tags[1..], to);
      assert b'[..next] == b'[..to][..next] && b[..next] == b[..to][..next];
      GetTagSame(wide, b, b', from, tags[0]);
    }
  }

  lemma {:induction false} TagsAtMore(wide: bool, b: Block, from: nat, tags: seq<Tag>, to: nat, t: Tag)
    requires TagsAt(wide, b, from, tags, to) && GetTag(wide, b, to) == Some(t)
    ensures TagsAt(wide, b, from, tags + [t], to + TagSize(wide, t))
    decreases |tags|
  {
    var more := tags + [t];
    if tags == [] {
      assert more[1..] == [];
    } else {
      assert more[1..] == tags[1..] + [t];
      TagsAtMore(wide, b, from + TagSize(wide, tags[0]), tags[1..], to, t);
    }
  }

  /** The reader gets back exactly the tags written, whatever follows them: it stops at the tag
      marked as the last one, or where no tag fits any more. */
  lemma {:induction false} ReadBack(wide: bool, b: Block, from: nat, tags: seq<Tag>, to: nat)
    requires TagsAt(wide, b, from, tags, to)
    requires forall i :: 0 <= i < |tags| - 1 ==> !tags[i].last
    requires (tags != [] && tags[|tags| - 1].last) || |b| < to + TagWords(wide)
    ensures ReadTags(wide, b, from) == tags
    decreases |tags|
  {
    hide GetTag;
    if tags == [] {
      NoTag(wide, b, from);
    } else {
      if !tags[0].last {
        TailTags(tags);
        ReadBack(wide, b, from + TagSize(wide, tags[0]), tags[1..], to);
      }
      assert tags == [tags[0]] + tags[1..] && (tags[0].last ==> tags[1..] == []);
    }
  }

  lemma {:induction false} NoTag(wide: bool, b: Block, at: nat)
    requires |b| < at + TagWords(wide)
    ensures GetTag(wide, b, at) == None
  {
  }

  lemma {:induction false} TailTags(tags: seq<Tag>)
    requires tags != [] && forall i :: 0 <= i < |tags| - 1 ==> !tags[i].last
    ensures forall i :: 0 <= i < |tags[1..]| - 1 ==> !tags[1..][i].last
    ensures tags[1..] != [] ==> tags[1..][|tags[1..]| - 1] == tags[|tags| - 1]
  {
  }
}
