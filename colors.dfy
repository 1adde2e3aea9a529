/**
 * The colour enumeration shared by the game and the framebuffer test:
 * the Sense HAT LED matrix takes one RGB565 word per pixel.
 */
module Colors {

  datatype Color = Red | Green | Blue | Magenta | Cyan | Yellow | Black | White

  /** The RGB565 word of each enumerator. A cell that is zeroed with memset
      therefore reads back as Black, which is why a reset cell is modelled
      with colour Black. */
  function Rgb565(c: Color): (v: bv16)
    ensures v == 0 <==> c == Black
  {
    match c
    case Red => 0xF800
    case Green => 0x07E0
    case Blue => 0x001F
    case Magenta => 0xF81F
    case Cyan => 0x07FF
    case Yellow => 0xFFE0
    case Black => 0x0000
    case White => 0xFFFF
  }
}
