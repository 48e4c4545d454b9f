/**
 The masks of applyMask (deps/qrcodegen.cpp) as pictures: each is a small tile, repeated over the symbol.
 */
module QrMasks {
  import opened ZigZag
  import opened QrGrid

  /** The modules that mask m inverts, # for inverted, row by row from the upper left corner. */
  function Tile(m: int): (rows: seq<string>)
    ensures |rows| > 0 && |rows[0]| > 0 && forall y :: 0 <= y < |rows| ==> |rows[y]| == |rows[0]|
  {
    match m
    case 0 => ["#.",
               ".#"]
    case 1 => ["#",
               "."]
    case 2 => ["#.."]
    case 3 => ["#..",
               "..#",
               ".#."]
    case 4 => ["###...",
               "###...",
               "...###",
               "...###"]
    case 5 => ["######",
               "#.....",
               "#..#..",
               "#.#.#.",
               "#..#..",
               "#....."]
    case 6 => ["######",
               "###...",
               "##.##.",
               "#.#.#.",
               "#.##.#",
               "#...##"]
    case _ => ["#.#.#.",
               "...###",
               "#...##",
               ".#.#.#",
               "###...",
               ".###.."]
  }

  predicate TileInverts(m: int, x: nat, y: nat) {
    Tile(m)[y % |Tile(m)|][x % |Tile(m)[0]|] == '#'
  }

  lemma Residues(v: nat, k: nat, r: nat)
    ensures v == 2 * k + r && r < 2 ==> v % 2 == r
    ensures v == 3 * k + r && r < 3 ==> v % 3 == r
  {
  }

  lemma SameRemainders(q: nat, r: nat)
    ensures (6 * q + r) % 2 == r % 2 && (6 * q + r) % 3 == r % 3
  {
    Residues(6 * q + r, 3 * q + r / 2, r % 2);
    Residues(6 * q + r, 2 * q + r / 3, r % 3);
  }

  /** A product by 2 and by 3 depends on its factors by 6. */
  lemma ProductPeriod(x: nat, y: nat)
    ensures x * y % 2 == (x % 6) * (y % 6) % 2 && x * y % 3 == (x % 6) * (y % 6) % 3
  {
    var a, i, b, j := x / 6, x % 6, y / 6, y % 6;
    assert x == 6 * a + i && y == 6 * b + j;
    SplitProduct(a, i, b, j);
    SameRemainders(6 * a * b + a * j + i * b, i * j);
  }

  lemma SplitProduct(a: nat, i: nat, b: nat, j: nat)
    ensures (6 * a + i) * (6 * b + j) == 6 * (6 * a * b + a * j + i * b) + i * j
  {
  }

  /** Masks 5 to 7 in terms of the product of the coordinates. */
  predicate InvertsBy(m: int, sum: nat, product: nat) {
    match m
    case 5 => product % 2 + product % 3 == 0
    case 6 => (product % 2 + product % 3) % 2 == 0
    case _ => (sum % 2 + product % 3) % 2 == 0
  }

  lemma InvertsByProduct(m: int, x: nat, y: nat)
    requires 5 <= m <= 7
    ensures Inverts(m, x, y) == InvertsBy(m, x + y, x * y)
  {
  }

  /** Row j of a tile, where the product with j is a sum. */
  predicate IsProduct(i: nat, j: nat, product: nat) {
    product == (if j == 0 then 0 else if j == 1 then i else if j == 2 then 2 * i
                else if j == 3 then 3 * i else if j == 4 then 4 * i else 5 * i)
  }

  lemma Tile5(i: nat, j: nat, product: nat)
    requires i < 6 && j < 6 && IsProduct(i, j, product)
    ensures InvertsBy(5, i + j, product) == (Tile(5)[j][i] == '#')
  {
    hide InvertsBy, Tile, IsProduct;
    if j < 2 {
      Tile5Upper(i, j, product);
    } else if j < 4 {
      Tile5Middle(i, j, product);
    } else {
      Tile5Lower(i, j, product);
    }
  }

  lemma Tile5Upper(i: nat, j: nat, product: nat)
    requires i < 6 && j < 2 && IsProduct(i, j, product)
    ensures InvertsBy(5, i + j, product) == (Tile(5)[j][i] == '#')
  {
    match i {
      case 0 => case 1 => case 2 => case 3 => case 4 => case 5 =>
    }
  }

  lemma Tile5Middle(i: nat, j: nat, product: nat)
    requires i < 6 && 2 <= j < 4 && IsProduct(i, j, product)
    ensures InvertsBy(5, i + j, product) == (Tile(5)[j][i] == '#')
  {
    match i {
      case 0 => case 1 => case 2 => case 3 => case 4 => case 5 =>
    }
  }

  lemma Tile5Lower(i: nat, j: nat, product: nat)
    requires i < 6 && 4 <= j < 6 && IsProduct(i, j, product)
    ensures InvertsBy(5, i + j, product) == (Tile(5)[j][i] == '#')
  {
    match i {
      case 0 => case 1 => case 2 => case 3 => case 4 => case 5 =>
    }
  }

  lemma Tile6(i: nat, j: nat, product: nat)
    requires i < 6 && j < 6 && IsProduct(i, j, product)
    ensures InvertsBy(6, i + j, product) == (Tile(6)[j][i] == '#')
  {
    hide InvertsBy, Tile, IsProduct;
    if j < 2 {
      Tile6Upper(i, j, product);
    } else if j < 4 {
      Tile6Middle(i, j, product);
    } else {
      Tile6Lower(i, j, product);
    }
  }

  lemma Tile6Upper(i: nat, j: nat, product: nat)
    requires i < 6 && j < 2 && IsProduct(i, j, product)
    ensures InvertsBy(6, i + j, product) == (Tile(6)[j][i] == '#')
  {
    match i {
      case 0 => case 1 => case 2 => case 3 => case 4 => case 5 =>
    }
  }

  lemma Tile6Middle(i: nat, j: nat, product: nat)
    requires i < 6 && 2 <= j < 4 && IsProduct(i, j, product)
    ensures InvertsBy(6, i + j, product) == (Tile(6)[j][i] == '#')
  {
    match i {
      case 0 => case 1 => case 2 => case 3 => case 4 => case 5 =>
    }
  }

  lemma Tile6Lower(i: nat, j: nat, product: nat)
    requires i < 6 && 4 <= j < 6 && IsProduct(i, j, product)
    ensures InvertsBy(6, i + j, product) == (Tile(6)[j][i] == '#')
  {
    match i {
      case 0 => case 1 => case 2 => case 3 => case 4 => case 5 =>
    }
  }

  lemma Tile7(i: nat, j: nat, product: nat)
    requires i < 6 && j < 6 && IsProduct(i, j, product)
    ensures InvertsBy(7, i + j, product) == (Tile(7)[j][i] == '#')
  {
    hide InvertsBy, Tile, IsProduct;
    if j < 2 {
      Tile7Upper(i, j, product);
    } else if j < 4 {
      Tile7Middle(i, j, product);
    } else {
      Tile7Lower(i, j, product);
    }
  }

  lemma Tile7Upper(i: nat, j: nat, product: nat)
    requires i < 6 && j < 2 && IsProduct(i, j, product)
    ensures InvertsBy(7, i + j, product) == (Tile(7)[j][i] == '#')
  {
    match i {
      case 0 => case 1 => case 2 => case 3 => case 4 => case 5 =>
    }
  }

  lemma Tile7Middle(i: nat, j: nat, product: nat)
    requires i < 6 && 2 <= j < 4 && IsProduct(i, j, product)
    ensures InvertsBy(7, i + j, product) == (Tile(7)[j][i] == '#')
  {
    match i {
      case 0 => case 1 => case 2 => case 3 => case 4 => case 5 =>
    }
  }

  lemma Tile7Lower(i: nat, j: nat, product: nat)
    requires i < 6 && 4 <= j < 6 && IsProduct(i, j, product)
    ensures InvertsBy(7, i + j, product) == (Tile(7)[j][i] == '#')
  {
    match i {
      case 0 => case 1 => case 2 => case 3 => case 4 => case 5 =>
    }
  }

  lemma TileOfProducts(m: int, i: nat, j: nat)
    requires 5 <= m <= 7 && i < 6 && j < 6
    ensures Inverts(m, i, j) == TileInverts(m, i, j)
  {
    hide Inverts, InvertsBy, Tile;
    InvertsByProduct(m, i, j);
    Tiles6(m);
    match m
    case 5 => Tile5(i, j, i * j);
    case 6 => Tile6(i, j, i * j);
    case 7 => Tile7(i, j, i * j);
  }

  lemma Tile0(x: nat, y: nat)
    ensures Inverts(0, x, y) == TileInverts(0, x, y)
  {
  }

  lemma Tile1(x: nat, y: nat)
    ensures Inverts(1, x, y) == TileInverts(1, x, y)
  {
  }

  lemma Tile2(x: nat, y: nat)
    ensures Inverts(2, x, y) == TileInverts(2, x, y)
  {
  }

  lemma Tile3(x: nat, y: nat)
    ensures Inverts(3, x, y) == TileInverts(3, x, y)
  {
    hide Tile;
    SmallTile3(x % 3, y % 3);
    Residues(x + y, x / 3 + y / 3 + (x % 3 + y % 3) / 3, (x % 3 + y % 3) % 3);
  }

  lemma SmallTile3(i: nat, j: nat)
    requires i < 3 && j < 3
    ensures |Tile(3)| == |Tile(3)[0]| == 3
    ensures (Tile(3)[j][i] == '#') == ((i + j) % 3 == 0)
  {
  }

  lemma Tile4(x: nat, y: nat)
    ensures Inverts(4, x, y) == TileInverts(4, x, y)
  {
    var a, i, b, j := x / 6, x % 6, y / 4, y % 4;
    hide Tile;
    Thirds(a, i);
    Halves(b, j);
    SmallTile4(i, j);
    Evens(a + b, i / 3 + j / 2);
  }

  lemma Thirds(a: nat, i: nat)
    ensures (6 * a + i) / 3 == 2 * a + i / 3
  {
  }

  lemma Evens(k: nat, r: nat)
    ensures (2 * k + r) % 2 == r % 2
  {
    Residues(2 * k + r, k + r / 2, r % 2);
  }

  lemma Halves(b: nat, j: nat)
    ensures (4 * b + j) / 2 == 2 * b + j / 2
  {
  }

  lemma SmallTile4(i: nat, j: nat)
    requires i < 6 && j < 4
    ensures |Tile(4)| == 4 && |Tile(4)[0]| == 6
    ensures (Tile(4)[j][i] == '#') == ((i / 3 + j / 2) % 2 == 0)
  {
  }

  lemma SameSum(x: nat, y: nat)
    ensures (x + y) % 2 == (x % 6 + y % 6) % 2
  {
    SameRemainders(x / 6 + y / 6, x % 6 + y % 6);
  }

  /** Each mask inverts what its tile says, all over the symbol. */
  lemma MaskIsTiled(m: int, x: nat, y: nat)
    requires 0 <= m <= 7
    ensures Inverts(m, x, y) == TileInverts(m, x, y)
  {
    hide Inverts, TileInverts;
    match m
    case 0 => Tile0(x, y);
    case 1 => Tile1(x, y);
    case 2 => Tile2(x, y);
    case 3 => Tile3(x, y);
    case 4 => Tile4(x, y);
    case _ =>
      InPeriod(m, x, y);
      TileOfProducts(m, x % 6, y % 6);
  }

  lemma InPeriod(m: int, x: nat, y: nat)
    requires 5 <= m <= 7
    ensures Inverts(m, x, y) == Inverts(m, x % 6, y % 6)
    ensures TileInverts(m, x, y) == TileInverts(m, x % 6, y % 6)
  {
    hide Inverts, TileInverts, InvertsBy;
    TilePeriod(m, x, y);
    InvertsByProduct(m, x, y);
    InvertsByProduct(m, x % 6, y % 6);
    ProductPeriod(x, y);
    SameSum(x, y);
    ByRemainders(m, x + y, x % 6 + y % 6, x * y, (x % 6) * (y % 6));
  }

  lemma TilePeriod(m: int, x: nat, y: nat)
    requires 5 <= m <= 7
    ensures TileInverts(m, x, y) == TileInverts(m, x % 6, y % 6)
  {
    hide Tile;
    Tiles6(m);
  }

  lemma ByRemainders(m: int, sum: nat, sum': nat, product: nat, product': nat)
    requires sum % 2 == sum' % 2 && product % 2 == product' % 2 && product % 3 == product' % 3
    ensures InvertsBy(m, sum, product) == InvertsBy(m, sum', product')
  {
  }

  lemma Tiles6(m: int)
    requires 5 <= m <= 7
    ensures |Tile(m)| == |Tile(m)[0]| == 6
  {
  }
}
