/** Where the file system gets its blocks: the card driver over the simulated card, or any other medium,
    which may refuse them. */
module BlockMedium {
  import opened Words
  import opened BlockCache
  import MicroSd
  import SdDriver

  /** The medium that a card with this image is. */
  function ImageCard(image: seq<byte>): Card {
    (b: nat) => Delivery(SdDriver.ImageBytes(image, SdDriver.Seek(b), BLOCK_LEN), true)
  }

  class Medium {
    const driver: SdDriver.SdCard?
    const other: Card

    constructor (driver: SdDriver.SdCard?, other: Card)
      ensures this.driver == driver && this.other == other
    {
      this.driver, this.other := driver, other;
    }

    /** The objects that reading may change. */
    ghost function Objects(): set<object> {
      if driver == null then {} else {driver.card}
    }

    /** The blocks delivered are those of `card`. */
    ghost predicate Gives(card: Card)
      reads Objects()
    {
      if driver == null then card == other
      else driver.card.Value().Valid() && !driver.card.wr.active && card == ImageCard(driver.card.sd)
    }

    /** `read_blocks` of one block. */
    method ReadBlock(ghost card: Card, block: nat, buf: array<byte>) returns (ok: bool)
      requires Gives(card) && block < TWO32 && buf.Length == BLOCK_LEN
      modifies Objects(), buf
      ensures Gives(card) && Delivery(buf[..], ok) == card(block)
    {
      if driver == null {
        var d := other(block);
        forall i | 0 <= i < BLOCK_LEN {
          buf[i] := d.data[i];
        }
        ok := d.ok;
      } else {
        ok := driver.ReadBlock(block, buf);
      }
    }
  }
}
