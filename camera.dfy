/** The orbiting camera of terminator.py: the three globals yaw, pitch and
    zoom, the `keyboard` callback that updates them one key at a time, and
    the eye position `display` derives from them. */
module CameraControl {
  import opened Geometry

  /** A GLUT key: one byte. */
  newtype byte = b: int | 0 <= b < 256

  const Esc: byte := 27

  /** Camera parameters: yaw and pitch in degrees, zoom as a distance. */
  datatype View = View(yaw: real, pitch: real, zoom: real)

  /** The view at start-up: yaw 0, pitch 25, zoom CAM_DISTANCE = 14. */
  const Initial: View := View(0.0, 25.0, 14.0)

  const PitchMax: real := 80.0
  const PitchMin: real := -10.0
  const ZoomMin: real := 4.0
  const ZoomMax: real := 40.0

  /** What the callback does after a key. `DecodeError` is the exception
      `key.decode()` raises for a byte that is not ASCII (a lone byte of
      128 or more is not valid UTF-8); `Exit` is `sys.exit(0)`. */
  datatype Outcome = Exit | Redisplay | DecodeError

  /** The action a key selects. */
  datatype Command = Quit | TurnLeft | TurnRight | TiltUp | TiltDown | ZoomIn | ZoomOut | Other | Undecodable

  function Min(a: real, b: real): real { if a <= b then a else b }
  function Max(a: real, b: real): real { if a >= b then a else b }

  /** `str.lower()` on an ASCII character. */
  function Lower(k: byte): byte
  {
    if 'A' as int <= k as int <= 'Z' as int then k + 32 else k
  }

  /** The if/elif chain of `keyboard`: letters compare case-insensitively,
      '+', '-' and ESC exactly. */
  function Classify(key: byte): Command
  {
    if key >= 128 then Undecodable
    else if key == Esc then Quit
    else if Lower(key) as int == 'a' as int then TurnLeft
    else if Lower(key) as int == 'd' as int then TurnRight
    else if Lower(key) as int == 'w' as int then TiltUp
    else if Lower(key) as int == 's' as int then TiltDown
    else if key as int == '+' as int then ZoomIn
    else if key as int == '-' as int then ZoomOut
    else Other
  }

  /** The effect of a command on the view. */
  function Apply(v: View, c: Command): View
  {
    match c
    case TurnLeft => v.(yaw := v.yaw - 8.0)
    case TurnRight => v.(yaw := v.yaw + 8.0)
    case TiltUp => v.(pitch := Min(PitchMax, v.pitch + 5.0))
    case TiltDown => v.(pitch := Max(PitchMin, v.pitch - 5.0))
    case ZoomIn => v.(zoom := Max(ZoomMin, v.zoom - 1.0))
    case ZoomOut => v.(zoom := Min(ZoomMax, v.zoom + 1.0))
    case _ => v
  }

  /** The view after one key. */
  function Press(v: View, key: byte): View
  {
    Apply(v, Classify(key))
  }

  /** What the callback does after one key. */
  function Reaction(key: byte): Outcome
  {
    match Classify(key)
    case Quit => Exit
    case Undecodable => DecodeError
    case _ => Redisplay
  }

  /** The view after a sequence of keys, oldest first. */
  function Presses(v: View, keys: seq<byte>): View
    decreases |keys|
  {
    if keys == [] then v else Presses(Press(v, keys[0]), keys[1..])
  }

  /** The clamped ranges of pitch and zoom. */
  predicate InRange(v: View)
  {
    PitchMin <= v.pitch <= PitchMax && ZoomMin <= v.zoom <= ZoomMax
  }

  /** The camera globals, updated in place by the keyboard callback. */
  class Camera {
    var yaw: real
    var pitch: real
    var zoom: real

    function Current(): View
      reads this
    {
      View(yaw, pitch, zoom)
    }

    constructor ()
      ensures Current() == Initial
    {
      yaw, pitch, zoom := 0.0, 25.0, 14.0;
    }

    /** `keyboard(key, x, y)`; the mouse coordinates are unused. */
    method Keyboard(key: byte) returns (outcome: Outcome)
      modifies this
      ensures outcome == Reaction(key)
      ensures Current() == Press(old(Current()), key)
      ensures old(InRange(Current())) ==> InRange(Current())
    {
      PressKeepsRange(Current(), key);
      if key >= 128 {
        return DecodeError;
      }
      var k := Lower(key);
      if key == Esc {
        return Exit;
      } else if k as int == 'a' as int {
        yaw := yaw - 8.0;
      } else if k as int == 'd' as int {
        yaw := yaw + 8.0;
      } else if k as int == 'w' as int {
        pitch := Min(PitchMax, pitch + 5.0);
      } else if k as int == 's' as int {
        pitch := Max(PitchMin, pitch - 5.0);
      } else if key as int == '+' as int {
        zoom := Max(ZoomMin, zoom - 1.0);
      } else if key as int == '-' as int {
        zoom := Min(ZoomMax, zoom + 1.0);
      }
      return Redisplay;
    }
  }

  /** The start-up view lies inside the clamped ranges. */
  lemma InitialInRange()
    ensures InRange(Initial)
  {
  }

  /** No key moves pitch or zoom out of its range. */
  lemma PressKeepsRange(v: View, key: byte)
    ensures InRange(v) ==> InRange(Press(v, key))
  {
  }

  /** Every view reachable from start-up by any keys is inside the ranges. */
  lemma {:induction false} PressesKeepRange(v: View, keys: seq<byte>)
    requires InRange(v)
    ensures InRange(Presses(v, keys))
    decreases |keys|
  {
    if keys != [] {
      PressKeepsRange(v, keys[0]);
      PressesKeepRange(Press(v, keys[0]), keys[1..]);
    }
  }

  lemma ReachableInRange(keys: seq<byte>)
    ensures InRange(Presses(Initial, keys))
  {
    PressesKeepRange(Initial, keys);
  }

  /** Each key moves one parameter by its step: the full table of the callback. */
  lemma KeyTable(v: View, key: byte)
    ensures key >= 128 ==> Press(v, key) == v && Reaction(key) == DecodeError
    ensures key == Esc ==> Press(v, key) == v && Reaction(key) == Exit
    ensures key as int in {'a' as int, 'A' as int} ==> Press(v, key) == v.(yaw := v.yaw - 8.0)
    ensures key as int in {'d' as int, 'D' as int} ==> Press(v, key) == v.(yaw := v.yaw + 8.0)
    ensures key as int in {'w' as int, 'W' as int} ==>
              Press(v, key) == v.(pitch := if v.pitch + 5.0 <= PitchMax then v.pitch + 5.0 else PitchMax)
    ensures key as int in {'s' as int, 'S' as int} ==>
              Press(v, key) == v.(pitch := if v.pitch - 5.0 >= PitchMin then v.pitch - 5.0 else PitchMin)
    ensures key as int == '+' as int ==>
              Press(v, key) == v.(zoom := if v.zoom - 1.0 >= ZoomMin then v.zoom - 1.0 else ZoomMin)
    ensures key as int == '-' as int ==>
              Press(v, key) == v.(zoom := if v.zoom + 1.0 <= ZoomMax then v.zoom + 1.0 else ZoomMax)
    ensures key < 128 && key != Esc ==> Reaction(key) == Redisplay
  {
  }

  /** A key bound to no action leaves the view as it was and redraws. */
  lemma UnboundKey(v: View, key: byte)
    requires key < 128 && key != Esc
    requires key as int !in {'a' as int, 'A' as int, 'd' as int, 'D' as int, 'w' as int,
                             'W' as int, 's' as int, 'S' as int, '+' as int, '-' as int}
    ensures Press(v, key) == v && Reaction(key) == Redisplay
  {
  }

  /** Upper- and lower-case letters act alike. */
  lemma CaseInsensitive(v: View, key: byte)
    requires 'A' as int <= key as int <= 'Z' as int
    ensures Press(v, key) == Press(v, key + 32) && Reaction(key) == Reaction(key + 32)
  {
  }

  /** Turning left then right, or right then left, restores the view. */
  lemma TurnsCancel(v: View)
    ensures Press(Press(v, 'a' as int as byte), 'd' as int as byte) == v
    ensures Press(Press(v, 'd' as int as byte), 'a' as int as byte) == v
  {
  }

  /** Away from the bounds, the tilt keys and the zoom keys undo each other. */
  lemma StepsCancel(v: View)
    ensures PitchMin <= v.pitch && v.pitch + 5.0 <= PitchMax ==> Press(Press(v, 'w' as int as byte), 's' as int as byte) == v
    ensures PitchMin <= v.pitch - 5.0 && v.pitch <= PitchMax ==> Press(Press(v, 's' as int as byte), 'w' as int as byte) == v
    ensures ZoomMin <= v.zoom - 1.0 && v.zoom <= ZoomMax ==> Press(Press(v, '+' as int as byte), '-' as int as byte) == v
    ensures ZoomMin <= v.zoom && v.zoom + 1.0 <= ZoomMax ==> Press(Press(v, '-' as int as byte), '+' as int as byte) == v
  {
  }

  /** At a bound, pressing further toward it changes nothing. */
  lemma ClampsHold(v: View)
    ensures v.pitch == PitchMax ==> Press(v, 'w' as int as byte) == v
    ensures v.pitch == PitchMin ==> Press(v, 's' as int as byte) == v
    ensures v.zoom == ZoomMin ==> Press(v, '+' as int as byte) == v
    ensures v.zoom == ZoomMax ==> Press(v, '-' as int as byte) == v
  {
  }

  /** n taps of 'w': pitch rises by 5 per tap and saturates at 80; yaw and zoom stay. */
  lemma {:induction false} TiltUpRepeated(v: View, n: nat)
    requires v.pitch <= PitchMax
    ensures Presses(v, seq(n, _ => 'w' as int as byte)) ==
            v.(pitch := Min(PitchMax, v.pitch + 5.0 * n as real))
    decreases n
  {
    if n > 0 {
      var keys := seq(n, _ => 'w' as int as byte);
      var v' := Press(v, keys[0]);
      assert keys[1..] == seq(n - 1, _ => 'w' as int as byte);
      TiltUpRepeated(v', n - 1);
    }
  }

  /** n taps of '+': zoom falls by 1 per tap and saturates at 4; yaw and pitch stay. */
  lemma {:induction false} ZoomInRepeated(v: View, n: nat)
    requires v.zoom >= ZoomMin
    ensures Presses(v, seq(n, _ => '+' as int as byte)) ==
            v.(zoom := Max(ZoomMin, v.zoom - n as real))
    decreases n
  {
    if n > 0 {
      var keys := seq(n, _ => '+' as int as byte);
      var v' := Press(v, keys[0]);
      assert keys[1..] == seq(n - 1, _ => '+' as int as byte);
      ZoomInRepeated(v', n - 1);
    }
  }

  /** A key that leaves a view unchanged leaves it unchanged however
      often it is pressed. */
  lemma {:induction false} HeldKeyIdle(v: View, key: byte, n: nat)
    requires Press(v, key) == v
    ensures Presses(v, seq(n, _ => key)) == v
    decreases n
  {
    if n > 0 {
      var keys := seq(n, _ => key);
      assert keys[1..] == seq(n - 1, _ => key);
      HeldKeyIdle(v, key, n - 1);
    }
  }

  /** Held against a bound, a key pressing further toward it changes
      nothing however often it is pressed. */
  lemma ClampsHoldRepeated(v: View, n: nat)
    ensures v.pitch == PitchMax ==> Presses(v, seq(n, _ => 'w' as int as byte)) == v
    ensures v.pitch == PitchMin ==> Presses(v, seq(n, _ => 's' as int as byte)) == v
    ensures v.zoom == ZoomMin ==> Presses(v, seq(n, _ => '+' as int as byte)) == v
    ensures v.zoom == ZoomMax ==> Presses(v, seq(n, _ => '-' as int as byte)) == v
  {
    ClampsHold(v);
    if v.pitch == PitchMax { HeldKeyIdle(v, 'w' as int as byte, n); }
    if v.pitch == PitchMin { HeldKeyIdle(v, 's' as int as byte, n); }
    if v.zoom == ZoomMin { HeldKeyIdle(v, '+' as int as byte, n); }
    if v.zoom == ZoomMax { HeldKeyIdle(v, '-' as int as byte, n); }
  }

  // The eye position of `display`

  /** A point in world space. */
  datatype Vec3 = Vec3(x: real, y: real, z: real)

  /** The eye of `gluLookAt`, with sine and cosine of an angle in degrees
      given as parameters. */
  function Eye(v: View, sinDeg: real -> real, cosDeg: real -> real): Vec3
  {
    Vec3(v.zoom * sinDeg(v.yaw) * cosDeg(v.pitch),
         v.zoom * sinDeg(v.pitch),
         v.zoom * cosDeg(v.yaw) * cosDeg(v.pitch))
  }

  /** The point looked at: a quarter of the stack's height above the origin. */
  const Target: Vec3 := Vec3(0.0, VolZ as real * VertSpacing / 4.0, 0.0)

  lemma TargetHeight()
    ensures Target == Vec3(0.0, 1.2, 0.0)
  {
  }

  /** The eye lies on the sphere of radius zoom about the origin (not
      about the target), given sin^2 + cos^2 = 1 for both angles. */
  lemma EyeOnSphere(v: View, sinDeg: real -> real, cosDeg: real -> real)
    requires sinDeg(v.yaw) * sinDeg(v.yaw) + cosDeg(v.yaw) * cosDeg(v.yaw) == 1.0
    requires sinDeg(v.pitch) * sinDeg(v.pitch) + cosDeg(v.pitch) * cosDeg(v.pitch) == 1.0
    ensures var e := Eye(v, sinDeg, cosDeg);
            e.x * e.x + e.y * e.y + e.z * e.z == v.zoom * v.zoom
  {
    var sy, cy, sp, cp, r := sinDeg(v.yaw), cosDeg(v.yaw), sinDeg(v.pitch), cosDeg(v.pitch), v.zoom;
    var e := Eye(v, sinDeg, cosDeg);
    assert e.x * e.x == r * r * (cp * cp) * (sy * sy);
    assert e.z * e.z == r * r * (cp * cp) * (cy * cy);
    assert e.y * e.y == r * r * (sp * sp);
    assert r * r * (cp * cp) * (sy * sy) + r * r * (cp * cp) * (cy * cy) == r * r * (cp * cp) * (sy * sy + cy * cy);
    assert r * r * (cp * cp) + r * r * (sp * sp) == r * r * (cp * cp + sp * sp);
  }

  /** At yaw 0 and pitch 0 the eye sits on the +z axis at distance zoom. */
  lemma EyeAtRest(zoom: real, sinDeg: real -> real, cosDeg: real -> real)
    requires sinDeg(0.0) == 0.0 && cosDeg(0.0) == 1.0
    ensures Eye(View(0.0, 0.0, zoom), sinDeg, cosDeg) == Vec3(0.0, 0.0, zoom)
  {
  }

  /** The eye's height depends on pitch and zoom alone; turning only swings it around. */
  lemma EyeHeightIgnoresYaw(v: View, yaw': real, sinDeg: real -> real, cosDeg: real -> real)
    ensures Eye(v.(yaw := yaw'), sinDeg, cosDeg).y == Eye(v, sinDeg, cosDeg).y
  {
  }
}
