/** The inventory item: an immutable record (id, name, quantity, price). */
module Model {
  import opened AutoGenerator

  /** Java's 32-bit `int`, the type of the quantity column. */
  newtype Int32 = x: int | -0x8000_0000 <= x < 0x8000_0000

  /** A Java `double`, carried bit for bit and never computed with. */
  datatype Price = Price(bits: bv64)

  /** A price the `DOUBLE` column can hold: not NaN and not an infinity,
      whose IEEE 754 exponent bits are all ones. */
  predicate Finite(p: Price) {
    p.bits & 0x7FF0_0000_0000_0000 != 0x7FF0_0000_0000_0000
  }

  /** One inventory record. The fields are final: a value of this type never
      changes, and its destructors are the getters `getId`, `getName`,
      `getQuantity` and `getPrice`. Building `Item(id, name, quantity, price)`
      directly is how the repository rebuilds a stored row. */
  datatype Item = Item(id: string, name: string, quantity: Int32, price: Price)

  /** The public constructor: the id comes from the generator, the other
      fields are taken as given, with no validation of any of them. */
  method NewItem(name: string, quantity: Int32, price: Price, draws: seq<Draw>) returns (item: Item)
    requires |draws| == IdLength
    ensures IsNumericId(item.id) && item.id == Spell(draws)
    ensures item.name == name && item.quantity == quantity && item.price == price
  {
    var id := IdGenerator(draws);
    item := Item(id, name, quantity, price);
  }
}
