/**
 * OffScreen<WIDTH, HEIGHT>: a monochrome canvas held as a page-addressed
 * bitmap. Byte (y / 8) * WIDTH + x holds the pixels of column x for the
 * eight rows of page y / 8, row y % 8 in bit y % 8. A pixel drawn with
 * the black pen is set, with any other pen cleared.
 */
module OffScreen {
  import opened Common

  const CHARBITS: nat := 8

  /** The screen: its template size and the bitmap. */
  datatype Screen = Screen(width: nat, height: nat, bitmap: seq<byte>)

  /** COUNT = (width * height) / CHARBITS bytes. */
  function Count(width: nat, height: nat): nat
  {
    (width * height) / CHARBITS
  }

  /** A screen of uint8_t dimensions whose bitmap has COUNT bytes. */
  predicate Valid(s: Screen)
  {
    s.width < 256 && s.height < 256 && |s.bitmap| == Count(s.width, s.height)
  }

  /** The byte holding pixel (x, y). */
  function Index(s: Screen, x: nat, y: nat): nat
  {
    (y / 8) * s.width + x
  }

  /** Whether pixel (x, y) is set. */
  function Pixel(s: Screen, x: nat, y: nat): bool
    requires Valid(s) && Index(s, x, y) < |s.bitmap|
  {
    HasBit(s.bitmap[Index(s, x, y)], y % 8)
  }

  /** a and b agree on every bit but bit k. */
  predicate OtherBitsKept(a: byte, b: byte, k: nat)
  {
    forall j :: 0 <= j < 8 && j != k ==> HasBit(b, j) == HasBit(a, j)
  }

  /** The byte with bit k set or cleared. */
  function SetBit(b: byte, k: nat, on: bool): (r: byte)
    requires k < 8
    ensures HasBit(r, k) == on
    ensures OtherBitsKept(b, r, k)
  {
    if on then
      (forall j | 0 <= j < 8 ensures HasBit(b | Bit(k), j) == (k == j || HasBit(b, j)) { OrBit(b, k, j); }
       b | Bit(k))
    else
      (forall j | 0 <= j < 8 ensures HasBit(b & !Bit(k), j) == (k != j && HasBit(b, j)) { AndNotBit(b, k, j); }
       b & !Bit(k))
  }

  /**
   * draw_pixel as written: the guard rejects only x > WIDTH or y > HEIGHT,
   * so a coordinate equal to the size passes; None stands for a store
   * outside the bitmap.
   */
  function DrawPixelAsWritten(s: Screen, x: u8, y: u8, black: bool): (r: Option<Screen>)
    requires Valid(s)
    ensures Paged(s) && x < s.width && y < s.height ==> r == Some(DrawPixel(s, x, y, black))
    ensures Paged(s) && r.None? ==> x == s.width || y == s.height
  {
    PixelInRange(s, x, y);
    if x > s.width || y > s.height then Some(s)
    else if Index(s, x, y) >= |s.bitmap| then None
    else Some(s.(bitmap := s.bitmap[Index(s, x, y) :=
                   SetBit(s.bitmap[Index(s, x, y)], y % 8, black)]))
  }

  /** As written, x == WIDTH passes the guard and, on the last page, stores past the bitmap. */
  lemma DrawPixelOverflows()
    ensures var s := Screen(8, 8, seq(8, i => 0));
            Valid(s) && DrawPixelAsWritten(s, 8, 0, true) == None
  {
  }

  /** A screen whose height is a whole number of pages, so every pixel has a byte. */
  predicate Paged(s: Screen)
  {
    Valid(s) && s.height % 8 == 0
  }

  /** On a paged screen every pixel inside the size has its byte in the bitmap. */
  lemma IndexInRange(s: Screen, x: nat, y: nat)
    requires Paged(s) && x < s.width && y < s.height
    ensures Index(s, x, y) < |s.bitmap|
  {
    var p := y / 8;
    var pages := s.height / 8;
    assert p < pages;
    assert s.width * s.height == s.width * pages * 8;
    assert Count(s.width, s.height) == s.width * pages by {
      ModUnique(s.width * s.height, 8, s.width * pages, 0);
    }
    assert p * s.width + x < (p + 1) * s.width;
    MulMono(p + 1, pages, s.width);
  }

  /** IndexInRange, for any screen, under the hypothesis that it is paged. */
  lemma PixelInRange(s: Screen, x: nat, y: nat)
    requires Valid(s)
    ensures Paged(s) && x < s.width && y < s.height ==> Index(s, x, y) < |s.bitmap|
  {
    if Paged(s) && x < s.width && y < s.height {
      IndexInRange(s, x, y);
    }
  }

  /**
   * draw_pixel with the guard x >= WIDTH or y >= HEIGHT: on a paged
   * screen only bit y % 8 of pixel (x, y)'s byte changes, set for a black
   * pen and cleared otherwise; pixels outside are ignored.
   */
  function DrawPixel(s: Screen, x: u8, y: u8, black: bool): (r: Screen)
    requires Paged(s)
    ensures Paged(r) && r.width == s.width && r.height == s.height && |r.bitmap| == |s.bitmap|
    ensures (x >= s.width || y >= s.height) ==> r == s
    ensures x < s.width && y < s.height ==>
              Index(s, x, y) < |s.bitmap|
              && Pixel(r, x, y) == black
              && (forall i :: 0 <= i < |s.bitmap| && i != Index(s, x, y) ==> r.bitmap[i] == s.bitmap[i])
              && OtherBitsKept(s.bitmap[Index(s, x, y)], r.bitmap[Index(s, x, y)], y % 8)
  {
    if x >= s.width || y >= s.height then s
    else
      IndexInRange(s, x, y);
      var i := Index(s, x, y);
      s.(bitmap := s.bitmap[i := SetBit(s.bitmap[i], y % 8, black)])
  }

  /** The two guards agree inside the screen: the correction only adds the edge row and column. */
  lemma DrawPixelAgrees(s: Screen, x: u8, y: u8, black: bool)
    requires Paged(s) && x < s.width && y < s.height
    ensures DrawPixelAsWritten(s, x, y, black) == Some(DrawPixel(s, x, y, black))
  {
    IndexInRange(s, x, y);
  }

  /** Two pixels of the same page and column share a byte; all other pixels have their own. */
  lemma PixelsIndependent(s: Screen, x: u8, y: u8, black: bool, u: nat, v: nat)
    requires Paged(s) && x < s.width && y < s.height && u < s.width && v < s.height
    requires u != x || v != y
    ensures Index(s, u, v) < |s.bitmap| && Pixel(DrawPixel(s, x, y, black), u, v) == Pixel(s, u, v)
  {
    IndexInRange(s, u, v);
    IndexInRange(s, x, y);
    if Index(s, u, v) == Index(s, x, y) {
      SameIndex(s, u, v, x, y);
    }
  }

  /** Equal byte indices inside the screen mean the same column and page. */
  lemma SameIndex(s: Screen, u: nat, v: nat, x: nat, y: nat)
    requires Paged(s) && u < s.width && x < s.width
    requires Index(s, u, v) == Index(s, x, y)
    ensures u == x && v / 8 == y / 8
  {
    ModUnique(Index(s, u, v), s.width, v / 8, u);
    ModUnique(Index(s, x, y), s.width, y / 8, x);
  }

  /** fill_screen as written: memset with the boolean (canvas colour is black), that is 1 or 0. */
  function FillScreenAsWritten(s: Screen, black: bool): (r: Screen)
    requires Valid(s)
    ensures Valid(r) && r.width == s.width && r.height == s.height
    ensures forall i :: 0 <= i < |r.bitmap| ==> r.bitmap[i] == if black then 1 else 0
  {
    s.(bitmap := seq(|s.bitmap|, i => if black then 1 else 0))
  }

  /** As written, a black fill sets only the first row of every page. */
  lemma FillScreenBlackIsStriped(s: Screen, x: nat, y: nat)
    requires Paged(s) && x < s.width && y < s.height
    ensures Index(s, x, y) < |s.bitmap| && (Pixel(FillScreenAsWritten(s, true), x, y) <==> y % 8 == 0)
  {
    IndexInRange(s, x, y);
    OneBit(y % 8);
  }

  /** Only bit 0 of the byte 1 is set. */
  lemma OneBit(k: nat)
    requires k < 8
    ensures HasBit(1, k) <==> k == 0
  {
  }

  /** fill_screen with 0xff for a black canvas and 0 otherwise. */
  function FillScreen(s: Screen, black: bool): (r: Screen)
    requires Paged(s)
    ensures Paged(r) && r.width == s.width && r.height == s.height
    ensures forall i :: 0 <= i < |r.bitmap| ==> r.bitmap[i] == if black then 0xff else 0
  {
    s.(bitmap := seq(|s.bitmap|, i => if black then 0xff else 0))
  }

  /** After fill_screen every pixel has the canvas colour. */
  lemma FillScreenColours(s: Screen, black: bool, x: nat, y: nat)
    requires Paged(s) && x < s.width && y < s.height
    ensures Index(s, x, y) < |s.bitmap| && Pixel(FillScreen(s, black), x, y) == black
  {
    IndexInRange(s, x, y);
    AllOrNothing(y % 8);
  }

  /** Every bit of 0xff is set and no bit of 0 is. */
  lemma AllOrNothing(k: nat)
    requires k < 8
    ensures HasBit(0xff, k) && !HasBit(0, k)
  {
  }

  /** begin as written: it calls the written fill_screen and succeeds. */
  function BeginAsWritten(s: Screen, black: bool): (r: (bool, Screen))
    requires Paged(s)
    ensures r.0 && r.1 == FillScreenAsWritten(s, black)
  {
    (true, FillScreenAsWritten(s, black))
  }

  /** As written, begin on a black canvas leaves only the first row of every page set, and on any other canvas clears every pixel. */
  lemma BeginAsWrittenStriped(s: Screen, black: bool, x: nat, y: nat)
    requires Paged(s) && x < s.width && y < s.height
    ensures Index(s, x, y) < |s.bitmap|
    ensures Pixel(BeginAsWritten(s, black).1, x, y) <==> black && y % 8 == 0
  {
    IndexInRange(s, x, y);
    OneBit(y % 8);
    AllOrNothing(y % 8);
  }

  /** begin with the corrected fill_screen: it succeeds. */
  function Begin(s: Screen, black: bool): (r: (bool, Screen))
    requires Paged(s)
    ensures r.0 && r.1 == FillScreen(s, black)
  {
    (true, FillScreen(s, black))
  }

  /** With the corrected fill, begin leaves every pixel of the screen with the canvas colour. */
  lemma BeginColours(s: Screen, black: bool, x: nat, y: nat)
    requires Paged(s) && x < s.width && y < s.height
    ensures Index(s, x, y) < |s.bitmap| && Pixel(Begin(s, black).1, x, y) == black
  {
    FillScreenColours(s, black, x, y);
  }

  /** end: nothing to do; it succeeds. */
  function End(s: Screen): (r: (bool, Screen))
    ensures r == (true, s)
  {
    (true, s)
  }
}
