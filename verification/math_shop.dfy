/** `GET /api/math/problem` (main.cpp:129-139): a shopping sum with a price
    per kilogram in 10..49 and a quantity in 1..5. The three `rand()` values
    are parameters, drawn in the order the handler draws them. */
module MathShop {

  const Items: seq<string> := ["Potatoes", "Onions", "Rice", "Lentils", "Tomatoes"]

  datatype Problem = Problem(item: string, pricePerKg: int, quantity: int, correctAnswer: int)

  /** The answer is the product, so it lies in 10..245. */
  function MakeProblem(priceDraw: nat, qtyDraw: nat, itemDraw: nat): (p: Problem)
    ensures 10 <= p.pricePerKg <= 49 && 1 <= p.quantity <= 5
    ensures p.correctAnswer == p.pricePerKg * p.quantity
    ensures 10 <= p.correctAnswer <= 245
    ensures p.item in Items
  {
    var price := priceDraw % 40 + 10;
    var qty := qtyDraw % 5 + 1;
    assert price * qty <= 49 * 5 by {
      assert price * qty <= price * 5;
    }
    Problem(Items[itemDraw % |Items|], price, qty, price * qty)
  }

  /** Every price, quantity and item in range is produced by some draws. */
  lemma EveryProblemPossible(price: int, qty: int, i: nat)
    requires 10 <= price <= 49 && 1 <= qty <= 5 && i < |Items|
    ensures exists d1: nat, d2: nat, d3: nat :: MakeProblem(d1, d2, d3) == Problem(Items[i], price, qty, price * qty)
  {
    assert MakeProblem(price - 10, qty - 1, i) == Problem(Items[i], price, qty, price * qty);
  }
}
