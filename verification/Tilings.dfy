/**
Block lists as maps from addresses to countries: the list a serializer is given,
and the same list with every gap filled, which covers the whole address space.
 */
module Tilings {
  import opened Options
  import opened Bits
  import opened Addresses
  import opened BlockFormat

  const SENTINEL: nat := 0

  /** What the serializer asks of its input: ascending, disjoint, non-empty blocks of real addresses. */
  predicate WellFormed(v: Version, blocks: seq<Block>)
  {
    && (forall i :: 0 <= i < |blocks| ==>
          && blocks[i].start <= blocks[i].end < v.Space()
          && blocks[i].country < COUNTRY_LIMIT)
    && (forall i, j :: 0 <= i < j < |blocks| ==> blocks[i].end < blocks[j].start)
  }

  predicate Contains(block: Block, ip: nat)
  {
    block.start <= ip <= block.end
  }

  /** The country of the first block that contains the address, the sentinel if there is none. */
  function CountryAt(blocks: seq<Block>, ip: nat): (country: nat)
  {
    if blocks == [] then SENTINEL
    else if Contains(blocks[0], ip) then blocks[0].country
    else CountryAt(blocks[1..], ip)
  }

  /** In a well-formed list no address is in two blocks, so "first" in `CountryAt` chooses nothing. */
  lemma {:induction false} CountryOfContaining(v: Version, blocks: seq<Block>, i: nat, ip: nat)
    requires WellFormed(v, blocks) && i < |blocks| && Contains(blocks[i], ip)
    ensures CountryAt(blocks, ip) == blocks[i].country
    ensures forall j :: 0 <= j < |blocks| && Contains(blocks[j], ip) ==> j == i
  {
    hide Pow2;
    if i > 0 {
      assert blocks[0].end < blocks[i].start;
      CountryOfContaining(v, blocks[1..], i - 1, ip);
    }
  }

  lemma {:induction false} CountryOutside(blocks: seq<Block>, ip: nat)
    requires forall i :: 0 <= i < |blocks| ==> !Contains(blocks[i], ip)
    ensures CountryAt(blocks, ip) == SENTINEL
  {
    if blocks != [] {
      CountryOutside(blocks[1..], ip);
    }
  }

  /** One sentinel block, if there is room for it. */
  function GapBefore(cursor: nat, start: nat): (gap: seq<Block>)
  {
    if cursor < start then [Block(cursor, start - 1, SENTINEL)] else []
  }

  /** The blocks from `cursor` on, each preceded by the gap before it. */
  function GapFilled(blocks: seq<Block>, cursor: nat): (tiles: seq<Block>)
  {
    if blocks == [] then []
    else GapBefore(cursor, blocks[0].start) + [blocks[0]] + GapFilled(blocks[1..], blocks[0].end + 1)
  }

  /** The first address after the blocks seen so far. */
  function After(blocks: seq<Block>, cursor: nat): (next: nat)
  {
    if blocks == [] then cursor else blocks[|blocks| - 1].end + 1
  }

  /** The list with its leading, inner and trailing gaps filled. No block at all leaves no tile. */
  function Tiling(v: Version, blocks: seq<Block>): (tiles: seq<Block>)
  {
    if blocks == [] then []
    else GapFilled(blocks, 0) + GapBefore(After(blocks, 0), v.Space())
  }

  /** Consecutive blocks that cover everything from `from` to the last address. */
  predicate Covers(v: Version, tiles: seq<Block>, from: nat)
    decreases |tiles|
  {
    && tiles != []
    && tiles[0].start == from
    && from <= tiles[0].end < v.Space()
    && tiles[0].country < COUNTRY_LIMIT
    && (if |tiles| == 1 then tiles[0].end == v.Max() else Covers(v, tiles[1..], tiles[0].end + 1))
  }

  lemma GapFilledCons(blocks: seq<Block>, cursor: nat, tail: seq<Block>)
    requires blocks != []
    ensures GapFilled(blocks, cursor) + tail
         == GapBefore(cursor, blocks[0].start) + ([blocks[0]] + (GapFilled(blocks[1..], blocks[0].end + 1) + tail))
  {
  }

  lemma GapFilledUnfold(blocks: seq<Block>, cursor: nat)
    requires blocks != []
    ensures GapFilled(blocks, cursor)
         == (GapBefore(cursor, blocks[0].start) + [blocks[0]]) + GapFilled(blocks[1..], blocks[0].end + 1)
  {
  }

  lemma GapFilledOne(block: Block, cursor: nat)
    ensures GapFilled([block], cursor) == GapBefore(cursor, block.start) + [block]
  {
  }

  lemma {:induction false} GapFilledSnoc(blocks: seq<Block>, block: Block, cursor: nat)
    ensures GapFilled(blocks + [block], cursor)
         == GapFilled(blocks, cursor) + (GapBefore(After(blocks, cursor), block.start) + [block])
    decreases |blocks|
  {
    if blocks == [] {
      GapFilledOne(block, cursor);
      assert blocks + [block] == [block];
    } else {
      hide GapBefore, GapFilled;
      var more, rest := blocks + [block], blocks[1..];
      assert more[0] == blocks[0] && more[1..] == rest + [block];
      GapFilledUnfold(blocks, cursor);
      GapFilledUnfold(more, cursor);
      GapFilledSnoc(rest, block, blocks[0].end + 1);
      Reassociate(GapBefore(cursor, blocks[0].start) + [blocks[0]], GapFilled(rest, blocks[0].end + 1),
                  GapBefore(After(blocks, cursor), block.start) + [block]);
    }
  }

  predicate StartsAtOrAfter(blocks: seq<Block>, cursor: nat)
  {
    blocks != [] ==> cursor <= blocks[0].start
  }

  /** The tail of a well-formed list is well-formed and lies behind its first block. */
  lemma WellFormedTail(v: Version, blocks: seq<Block>)
    requires WellFormed(v, blocks) && blocks != []
    ensures WellFormed(v, blocks[1..]) && StartsAtOrAfter(blocks[1..], blocks[0].end + 1)
    ensures After(blocks[1..], blocks[0].end + 1) == After(blocks, 0)
  {
  }

  /** A tile in front of a cover of the rest. */
  lemma CoverStep(v: Version, tile: Block, rest: seq<Block>)
    requires tile.start <= tile.end < v.Space() && tile.country < COUNTRY_LIMIT
    requires if rest == [] then tile.end == v.Max() else Covers(v, rest, tile.end + 1)
    ensures Covers(v, [tile] + rest, tile.start)
  {
  }

  lemma CoverIsNotEmpty(v: Version, tiles: seq<Block>, from: nat)
    requires Covers(v, tiles, from)
    ensures tiles != []
  {
  }

  lemma SentinelFits()
    ensures SENTINEL < COUNTRY_LIMIT
  {
  }

  lemma NoBlocks(cursor: nat)
    ensures GapFilled([], cursor) == []
  {
  }

  /** The last block, with what is left behind it. */
  lemma LastTileCovers(v: Version, b: Block)
    requires b.start <= b.end < v.Space() && b.country < COUNTRY_LIMIT
    ensures Covers(v, [b] + GapBefore(b.end + 1, v.Space()), b.start)
  {
    hide Covers;
    SentinelFits();
    var end := GapBefore(b.end + 1, v.Space());
    if end != [] {
      CoverStep(v, end[0], []);
      assert end == [end[0]] + [];
    }
    CoverStep(v, b, end);
  }

  /** A block in front of a cover of the rest, with the gap before it. */
  lemma GapThenBlockCovers(v: Version, cursor: nat, b: Block, rest: seq<Block>)
    requires cursor <= b.start < v.Space() && Covers(v, [b] + rest, b.start)
    ensures Covers(v, GapBefore(cursor, b.start) + ([b] + rest), cursor)
  {
    hide Covers;
    SentinelFits();
    var gap := GapBefore(cursor, b.start);
    if cursor < b.start {
      CoverStep(v, gap[0], [b] + rest);
    } else {
      assert gap + ([b] + rest) == [b] + rest;
    }
  }

  lemma {:induction false} GapFilledCovers(v: Version, blocks: seq<Block>, cursor: nat)
    requires WellFormed(v, blocks) && blocks != [] && StartsAtOrAfter(blocks, cursor)
    ensures Covers(v, GapFilled(blocks, cursor) + GapBefore(After(blocks, 0), v.Space()), cursor)
    decreases |blocks|
  {
    hide Covers, GapFilled, GapBefore;
    var b := blocks[0];
    var end := GapBefore(After(blocks, 0), v.Space());
    var rest := GapFilled(blocks[1..], b.end + 1) + end;
    WellFormedTail(v, blocks);
    if |blocks| > 1 {
      GapFilledCovers(v, blocks[1..], b.end + 1);
      CoverIsNotEmpty(v, rest, b.end + 1);
      CoverStep(v, b, rest);
    } else {
      NoBlocks(b.end + 1);
      assert blocks[1..] == [] && rest == end;
      LastTileCovers(v, b);
    }
    GapFilledCons(blocks, cursor, end);
    GapThenBlockCovers(v, cursor, b, rest);
  }

  /** Filling the gaps of a non-empty well-formed list covers the address space exactly once. */
  lemma TilingCovers(v: Version, blocks: seq<Block>)
    requires WellFormed(v, blocks) && blocks != []
    ensures Covers(v, Tiling(v, blocks), 0)
  {
    GapFilledCovers(v, blocks, 0);
  }

  lemma CountryAtCons(block: Block, rest: seq<Block>, ip: nat)
    ensures CountryAt([block] + rest, ip) == if Contains(block, ip) then block.country else CountryAt(rest, ip)
  {
  }

  lemma {:induction false} GapFilledMeaning(v: Version, blocks: seq<Block>, cursor: nat, end: nat, ip: nat)
    requires WellFormed(v, blocks) && StartsAtOrAfter(blocks, cursor)
    ensures CountryAt(GapFilled(blocks, cursor) + GapBefore(After(blocks, cursor), end), ip) == CountryAt(blocks, ip)
    decreases |blocks|
  {
    hide Pow2, GapFilled;
    var tail := GapBefore(After(blocks, cursor), end);
    if blocks == [] {
      NoBlocks(cursor);
      assert [] + tail == tail;
    } else {
      var b, gap := blocks[0], GapBefore(cursor, blocks[0].start);
      var rest := GapFilled(blocks[1..], b.end + 1) + tail;
      WellFormedTail(v, blocks);
      GapFilledMeaning(v, blocks[1..], b.end + 1, end, ip);
      GapFilledCons(blocks, cursor, tail);
      CountryAtCons(b, rest, ip);
      if cursor < b.start {
        CountryAtCons(gap[0], [b] + rest, ip);
        if Contains(gap[0], ip) {
          CountryOutside(blocks, ip);
        }
      } else {
        assert [] + ([b] + rest) == [b] + rest;
      }
    }
  }

  /** Filling the gaps changes the country of no address. */
  lemma TilingMeaning(v: Version, blocks: seq<Block>, ip: nat)
    requires WellFormed(v, blocks)
    ensures CountryAt(Tiling(v, blocks), ip) == CountryAt(blocks, ip)
  {
    GapFilledMeaning(v, blocks, 0, v.Space(), ip);
  }

  /** The tile fills a gap completely: from one block, or the start, to the next block, or the end. */
  predicate FillsGap(v: Version, blocks: seq<Block>, tile: Block)
  {
    && tile.country == 0
    && (tile.start == 0 || exists b :: b in blocks && b.end + 1 == tile.start)
    && (tile.end == v.Max() || exists b :: b in blocks && tile.end + 1 == b.start)
  }

  lemma {:induction false} GapFilledTiles(v: Version, all: seq<Block>, n: nat)
    requires WellFormed(v, all) && n <= |all|
    ensures forall b :: b in all[..n] ==> b in GapFilled(all[..n], 0)
    ensures forall t :: t in GapFilled(all[..n], 0) ==> t in all || FillsGap(v, all, t)
    decreases n
  {
    hide Pow2, GapFilled;
    if n == 0 {
      NoBlocks(0);
    } else {
      var init, last := all[..n - 1], all[n - 1];
      assert all[..n] == init + [last];
      GapFilledTiles(v, all, n - 1);
      GapFilledSnoc(init, last, 0);
      var gap := GapBefore(After(init, 0), last.start);
      if n > 1 {
        assert init[n - 2] == all[n - 2];
      }
      if gap != [] {
        assert last in all && FillsGap(v, all, gap[0]);
      }
    }
  }

  /** Every block is a tile, and every other tile fills a gap between blocks completely. */
  lemma TilesAreBlocksAndGaps(v: Version, blocks: seq<Block>)
    requires WellFormed(v, blocks)
    ensures forall b :: b in blocks ==> b in Tiling(v, blocks)
    ensures forall t :: t in Tiling(v, blocks) ==> t in blocks || FillsGap(v, blocks, t)
  {
    hide Pow2, GapFilled;
    GapFilledTiles(v, blocks, |blocks|);
    assert blocks[..|blocks|] == blocks;
    if blocks != [] {
      var gap := GapBefore(After(blocks, 0), v.Space());
      assert blocks[|blocks| - 1] in blocks;
      assert gap != [] ==> FillsGap(v, blocks, gap[0]);
    }
  }

  // ----- tilings as record streams -----

  function RecordsOf(tiles: seq<Block>): (records: seq<Record>)
    ensures |records| == |tiles|
  {
    if tiles == [] then [] else [Record(tiles[0].start, tiles[0].country)] + RecordsOf(tiles[1..])
  }

  lemma {:induction false} RecordsOfAppend(first: seq<Block>, more: seq<Block>)
    ensures RecordsOf(first + more) == RecordsOf(first) + RecordsOf(more)
  {
    if first == [] {
      assert first + more == more;
    } else {
      assert (first + more)[1..] == first[1..] + more;
      RecordsOfAppend(first[1..], more);
    }
  }

  /** A cover can be encoded, and its records alone determine its blocks. */
  lemma {:induction false} CoverAsRecords(v: Version, tiles: seq<Block>, from: nat, prev: nat)
    requires Covers(v, tiles, from) && prev != from
    ensures Encodable(v, prev, RecordsOf(tiles))
    ensures forall r :: r in RecordsOf(tiles) ==> r.start < v.Space()
    ensures BlocksOf(v, RecordsOf(tiles)) == tiles
    decreases |tiles|
  {
    hide Pow2;
    var records := RecordsOf(tiles);
    if |tiles| == 1 {
      assert records == [Record(tiles[0].start, tiles[0].country)];
    } else {
      CoverAsRecords(v, tiles[1..], tiles[0].end + 1, tiles[0].start);
      assert records[1..] == RecordsOf(tiles[1..]);
      assert MinusOneIp(v, records[1].start) == tiles[0].end;
    }
  }

  /** The bits the serializer leaves behind for a list of blocks. */
  function Serialized(v: Version, blocks: seq<Block>): (bits: seq<bool>)
    requires WellFormed(v, blocks)
  {
    if blocks == [] then []
    else
      TilingCovers(v, blocks);
      CoverAsRecords(v, Tiling(v, blocks), 0, InitialStart(v));
      Encode(v, InitialStart(v), RecordsOf(Tiling(v, blocks)))
  }

  lemma NothingDecoded(v: Version)
    ensures Decode(v, []).None?
  {
  }

  lemma InitialIsNotFirst(v: Version)
    ensures InitialStart(v) != 0
  {
  }

  /** Decoding what was serialized gives the input with its gaps filled; nothing gives nothing. */
  lemma DecodeSerialized(v: Version, blocks: seq<Block>)
    requires WellFormed(v, blocks)
    ensures Decode(v, Serialized(v, blocks)) == if blocks == [] then None else Some(Tiling(v, blocks))
  {
    hide Pow2, Encode, Decode, Tiling;
    if blocks == [] {
      NothingDecoded(v);
    } else {
      TilingCovers(v, blocks);
      InitialIsNotFirst(v);
      CoverAsRecords(v, Tiling(v, blocks), 0, InitialStart(v));
      DecodeEncoded(v, RecordsOf(Tiling(v, blocks)));
    }
  }

  lemma {:induction false} GapFilledLength(blocks: seq<Block>, cursor: nat)
    ensures |blocks| <= |GapFilled(blocks, cursor)| <= 2 * |blocks|
  {
    if blocks != [] {
      GapFilledLength(blocks[1..], blocks[0].end + 1);
    }
  }

  /** What serializing costs: between 21 and 51 bits a block, gaps included (31 and 164 for version 6). */
  lemma SerializedLength(v: Version, blocks: seq<Block>)
    requires WellFormed(v, blocks)
    ensures MinRecordSize(v) * |Tiling(v, blocks)| <= |Serialized(v, blocks)| <= MaxRecordSize(v) * |Tiling(v, blocks)|
    ensures |blocks| <= |Tiling(v, blocks)| <= 2 * |blocks| + 1
  {
    hide Pow2, Encode, Encodable, WellFormed;
    GapFilledLength(blocks, 0);
    if blocks != [] {
      TilingCovers(v, blocks);
      InitialIsNotFirst(v);
      CoverAsRecords(v, Tiling(v, blocks), 0, InitialStart(v));
      EncodeLength(v, InitialStart(v), RecordsOf(Tiling(v, blocks)));
    }
  }
}
