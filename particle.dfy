/** The particle of the simulator: a sphere whose 12-component state advances
    by the discrete-time linear model state' = phi·state + gamma·u, built on
    the tensor library. */
module Particles {
  import opened Matrices
  import opened Tensors

  /** The particle's `dimension`: position and velocity have three rows. */
  const Dimension: nat := 3
  /** Rows of the state column: position, velocity, orientation, rates. */
  const StateSize: nat := 12
  /** Rows of the input column: three normal and three tangential forces. */
  const InputSize: nat := 6
  const DefaultSampleTime: real := 0.001

  /** The solid-sphere moment of inertia the setters recompute. */
  function SphereMoi(mass: real, radius: real): real {
    2.0 * (mass * radius * radius) / 5.0
  }

  /** The shapes one tick needs: phi square over the state, gamma from the
      input rows to the state rows, state and input columns alike. */
  predicate Compatible(phi: Matrix, gamma: Matrix, u: Matrix, s: Matrix) {
    Rectangular(phi) && Rectangular(gamma) && Rectangular(u) && Rectangular(s) &&
    Rows(phi) == Cols(phi) == Rows(s) == Rows(gamma) && Cols(gamma) == Rows(u) && Cols(u) == Cols(s)
  }

  /** One tick of `update`: `add(multiply(phi, state), multiply(gamma, u))`.
      Cell (i, j) is the dot product of row i of phi with column j of the
      state plus that of row i of gamma with column j of the input. */
  function Step(phi: Matrix, gamma: Matrix, u: Matrix, s: Matrix): (r: Matrix)
    requires Compatible(phi, gamma, u, s)
    ensures Rectangular(r) && Shaped(r, Rows(s), Cols(s))
    ensures forall i, j :: 0 <= i < Rows(s) && 0 <= j < Cols(s) ==>
      r[i][j] == RowCol(phi, s, i, j, Rows(s)) + RowCol(gamma, u, i, j, Rows(u))
  {
    MultipliedCells(phi, s);
    MultipliedCells(gamma, u);
    SumCells(Multiplied(phi, s), Multiplied(gamma, u));
    Sum(Multiplied(phi, s), Multiplied(gamma, u))
  }

  /** The state after n ticks of a step response: the first tick sees
      `impulse`, every later tick sees `rest`. */
  function Response(phi: Matrix, gamma: Matrix, impulse: Matrix, rest: Matrix, s: Matrix, n: nat): (r: Matrix)
    requires Compatible(phi, gamma, impulse, s) && Compatible(phi, gamma, rest, s)
    ensures Compatible(phi, gamma, impulse, r) && Shaped(r, Rows(s), Cols(s))
  {
    if n == 0 then s
    else
      var before := Response(phi, gamma, impulse, rest, s, n - 1);
      Step(phi, gamma, if n == 1 then impulse else rest, before)
  }

  /** Two ticks: phi(phi s + gamma u1) + gamma u2 expands to
      phi(phi s) + phi(gamma u1) + gamma u2, the n = 2 instance of
      phi^n s + sum of phi^i gamma u. */
  lemma TwoTicks(phi: Matrix, gamma: Matrix, u1: Matrix, u2: Matrix, s: Matrix)
    requires Compatible(phi, gamma, u1, s) && Compatible(phi, gamma, u2, s)
    ensures Step(phi, gamma, u2, Step(phi, gamma, u1, s)) ==
      Sum(Sum(Multiplied(phi, Multiplied(phi, s)), Multiplied(phi, Multiplied(gamma, u1))), Multiplied(gamma, u2))
  {
    var once := Step(phi, gamma, u1, s);
    assert once == Sum(Multiplied(phi, s), Multiplied(gamma, u1));
    ProductDistributes(phi, Multiplied(phi, s), Multiplied(gamma, u1));
  }

  /** Two ticks of the step response: the impulse enters once through
      phi·gamma, the resting input once through gamma. */
  lemma ResponseTwo(phi: Matrix, gamma: Matrix, impulse: Matrix, rest: Matrix, s: Matrix)
    requires Compatible(phi, gamma, impulse, s) && Compatible(phi, gamma, rest, s)
    ensures Response(phi, gamma, impulse, rest, s, 2) ==
      Sum(Sum(Multiplied(phi, Multiplied(phi, s)), Multiplied(phi, Multiplied(gamma, impulse))), Multiplied(gamma, rest))
  {
    assert Response(phi, gamma, impulse, rest, s, 1) == Step(phi, gamma, impulse, s);
    TwoTicks(phi, gamma, impulse, rest, s);
  }

  /** Every cell of m is zero. */
  ghost predicate AllZero(m: Matrix) {
    forall i, j :: 0 <= i < |m| && 0 <= j < |m[i]| ==> m[i][j] == 0.0
  }

  /** Writes x, y, z into rows 0, 1, 2 of column 0 of a 3 x 1 tensor. */
  method WriteTriple(t: Tensor, x: real, y: real, z: real)
    requires t.Valid() && t.height == Dimension && t.width == 1
    modifies t
    ensures t.Valid()
    ensures t.content == [[x], [y], [z]]
  {
    t.content := WithCell(t.content, 0, 0, x);
    t.content := WithCell(t.content, 1, 0, y);
    t.content := WithCell(t.content, 2, 0, z);
    assert t.content[0] == [x] && t.content[1] == [y] && t.content[2] == [z];
  }

  /** A zero 3 x 1 column with x, y, z then written into it, as the
      constructors do with position and velocity. */
  method Triple(x: real, y: real, z: real) returns (t: Tensor)
    ensures fresh(t) && t.Valid() && t.height == Dimension && t.width == 1
    ensures t.content == [[x], [y], [z]]
  {
    t := new Tensor.Column(Dimension);
    WriteTriple(t, x, y, z);
  }

  /** The state, phi, gamma and u tensors a particle starts with: four
      distinct zero tensors of shapes 12 x 1, 12 x 12, 12 x 6 and 6 x 1. */
  method ModelTensors() returns (state: Tensor, phi: Tensor, gamma: Tensor, u: Tensor)
    ensures fresh(state) && fresh(phi) && fresh(gamma) && fresh(u)
    ensures state != phi && state != gamma && state != u && phi != gamma && phi != u && gamma != u
    ensures state.Valid() && state.height == StateSize && state.width == 1 && AllZero(state.content)
    ensures phi.Valid() && phi.height == StateSize && phi.width == StateSize && AllZero(phi.content)
    ensures gamma.Valid() && gamma.height == StateSize && gamma.width == InputSize && AllZero(gamma.content)
    ensures u.Valid() && u.height == InputSize && u.width == 1 && AllZero(u.content)
  {
    state := new Tensor.Column(StateSize);
    phi := new Tensor.Sized(StateSize, StateSize);
    gamma := new Tensor.Sized(StateSize, InputSize);
    u := new Tensor.Column(InputSize);
  }

  class Particle {
    var radius: real
    var mass: real
    var moi: real
    var dt: real
    const position: Tensor
    const velocity: Tensor
    var state: Tensor
    const phi: Tensor
    const gamma: Tensor
    const u: Tensor

    /** Every tensor is well formed and has its fixed shape, and no two
        fields share a tensor. */
    ghost predicate Valid()
      reads this, position, velocity, state, phi, gamma, u
    {
      position.Valid() && position.height == Dimension && position.width == 1 &&
      velocity.Valid() && velocity.height == Dimension && velocity.width == 1 &&
      state.Valid() && state.height == StateSize && state.width == 1 &&
      phi.Valid() && phi.height == StateSize && phi.width == StateSize &&
      gamma.Valid() && gamma.height == StateSize && gamma.width == InputSize &&
      u.Valid() && u.height == InputSize && u.width == 1 &&
      position != velocity && position != state && position != phi && position != gamma && position != u &&
      velocity != state && velocity != phi && velocity != gamma && velocity != u &&
      state != phi && state != gamma && state != u &&
      phi != gamma && phi != u && gamma != u
    }

    /** The tensors a freshly built particle starts from: all zero, with the
        default sample time and no moment of inertia yet. */
    ghost predicate AtRest()
      reads this, state, phi, gamma, u
    {
      moi == 0.0 && dt == DefaultSampleTime &&
      AllZero(state.content) && AllZero(phi.content) && AllZero(gamma.content) && AllZero(u.content)
    }

    /** `particle(r, m, x, y, z, dx, dy, dz)`. */
    constructor FromScalars(r: real, m: real, x: real, y: real, z: real, dx: real, dy: real, dz: real)
      ensures Valid() && AtRest()
      ensures fresh(position) && fresh(velocity) && fresh(state) && fresh(phi) && fresh(gamma) && fresh(u)
      ensures radius == r && mass == m
      ensures position.content == [[x], [y], [z]] && velocity.content == [[dx], [dy], [dz]]
    {
      radius := r;
      mass := m;
      moi := 0.0;
      dt := DefaultSampleTime;
      var p := Triple(x, y, z);
      var v := Triple(dx, dy, dz);
      var s, ph, g, i := ModelTensors();
      position, velocity, state, phi, gamma, u := p, v, s, ph, g, i;
    }

    /** `particle(r, m, a)` for a vector a: position and velocity are read
        from a[0..2] and a[3..5] only when a has 3 * dimension entries, and
        stay zero otherwise; radius and mass are set either way. */
    constructor FromVector(r: real, m: real, a: seq<real>)
      ensures Valid() && AtRest()
      ensures fresh(position) && fresh(velocity) && fresh(state) && fresh(phi) && fresh(gamma) && fresh(u)
      ensures radius == r && mass == m
      ensures |a| == 3 * Dimension ==>
        position.content == [[a[0]], [a[1]], [a[2]]] && velocity.content == [[a[3]], [a[4]], [a[5]]]
      ensures |a| != 3 * Dimension ==> AllZero(position.content) && AllZero(velocity.content)
    {
      radius := r;
      mass := m;
      moi := 0.0;
      dt := DefaultSampleTime;
      var p, v;
      if |a| == 3 * Dimension {
        p := Triple(a[0], a[1], a[2]);
        v := Triple(a[3], a[4], a[5]);
      } else {
        p := new Tensor.Column(Dimension);
        v := new Tensor.Column(Dimension);
      }
      var s, ph, g, i := ModelTensors();
      position, velocity, state, phi, gamma, u := p, v, s, ph, g, i;
    }

    /** `particle(r, m, a)` for a tensor a: position and velocity are read
        from rows 0..2 and 3..5 of column 0 only when a has 3 * dimension
        rows, and stay zero otherwise; radius and mass are set either way. */
    constructor FromTensor(r: real, m: real, a: Tensor)
      requires a.Valid()
      ensures Valid() && AtRest()
      ensures fresh(position) && fresh(velocity) && fresh(state) && fresh(phi) && fresh(gamma) && fresh(u)
      ensures radius == r && mass == m
      ensures a.height == 3 * Dimension ==>
        position.content == [[a.content[0][0]], [a.content[1][0]], [a.content[2][0]]] &&
        velocity.content == [[a.content[3][0]], [a.content[4][0]], [a.content[5][0]]]
      ensures a.height != 3 * Dimension ==> AllZero(position.content) && AllZero(velocity.content)
    {
      radius := r;
      mass := m;
      moi := 0.0;
      dt := DefaultSampleTime;
      var p, v;
      if a.height == 3 * Dimension {
        p := Triple(a.content[0][0], a.content[1][0], a.content[2][0]);
        v := Triple(a.content[3][0], a.content[4][0], a.content[5][0]);
      } else {
        p := new Tensor.Column(Dimension);
        v := new Tensor.Column(Dimension);
      }
      var s, ph, g, i := ModelTensors();
      position, velocity, state, phi, gamma, u := p, v, s, ph, g, i;
    }

    /** `update()`: the state becomes phi·state + gamma·u, a fresh tensor;
        phi, gamma, u and the scalars are kept. Always SUCCESS. */
    method Update() returns (status: Status)
      requires Valid()
      modifies this
      ensures Valid() && fresh(state)
      ensures status == Success
      ensures state.content == Step(phi.content, gamma.content, u.content, old(state.content))
      ensures phi.content == old(phi.content) && gamma.content == old(gamma.content) && u.content == old(u.content)
      ensures radius == old(radius) && mass == old(mass) && moi == old(moi) && dt == old(dt)
    {
      status := Failure;
      var ps := Multiply(phi, state);
      var gu := Multiply(gamma, u);
      state := Add(ps, gu);
      status := Success;
    }

    /** `set_u(fnx, fny, fnz, ftx, fty, ftz)`: the six forces become rows
        0..5 of the input column. Always SUCCESS. */
    method SetU(fnx: real, fny: real, fnz: real, ftx: real, fty: real, ftz: real) returns (status: Status)
      requires Valid()
      modifies u
      ensures Valid()
      ensures status == Success
      ensures u.content == [[fnx], [fny], [fnz], [ftx], [fty], [ftz]]
    {
      u.content := WithCell(u.content, 0, 0, fnx);
      u.content := WithCell(u.content, 1, 0, fny);
      u.content := WithCell(u.content, 2, 0, fnz);
      u.content := WithCell(u.content, 3, 0, ftx);
      u.content := WithCell(u.content, 4, 0, fty);
      u.content := WithCell(u.content, 5, 0, ftz);
      assert u.content[0] == [fnx] && u.content[1] == [fny] && u.content[2] == [fnz];
      assert u.content[3] == [ftx] && u.content[4] == [fty] && u.content[5] == [ftz];
      status := Success;
    }

    /** `set_mass(m)`: the mass, and the moment of inertia recomputed with
        the current radius. Always SUCCESS. */
    method SetMass(m: real) returns (status: Status)
      requires Valid()
      modifies this
      ensures Valid()
      ensures status == Success
      ensures mass == m && moi == SphereMoi(m, radius)
      ensures radius == old(radius) && dt == old(dt) && state == old(state)
    {
      mass := m;
      moi := 2.0 * (mass * radius * radius) / 5.0;
      status := Success;
    }

    /** `set_radius(r)`: the radius, and the moment of inertia recomputed
        with the current mass. Always SUCCESS. */
    method SetRadius(r: real) returns (status: Status)
      requires Valid()
      modifies this
      ensures Valid()
      ensures status == Success
      ensures radius == r && moi == SphereMoi(mass, r)
      ensures mass == old(mass) && dt == old(dt) && state == old(state)
    {
      radius := r;
      moi := 2.0 * (mass * radius * radius) / 5.0;
      status := Success;
    }

    /** `set_moi(m, r)`: mass and radius through their setters, then the
        moment of inertia of that sphere. Always SUCCESS. */
    method SetMoi(m: real, r: real) returns (status: Status)
      requires Valid()
      modifies this
      ensures Valid()
      ensures status == Success
      ensures mass == m && radius == r && moi == SphereMoi(m, r)
      ensures dt == old(dt) && state == old(state)
    {
      var _ := SetMass(m);
      var _ := SetRadius(r);
      moi := 2.0 * (m * r * r) / 5.0;
      status := Success;
    }

    /** `set_sample_time(dt_new)`: FAILURE for 0.0, with dt kept; otherwise
        dt becomes dt_new. Phi and gamma are not regenerated. */
    method SetSampleTime(dtNew: real) returns (status: Status)
      requires Valid()
      modifies this
      ensures Valid()
      ensures status == (if dtNew == 0.0 then Failure else Success)
      ensures dt == (if dtNew == 0.0 then old(dt) else dtNew)
      ensures radius == old(radius) && mass == old(mass) && moi == old(moi) && state == old(state)
    {
      if dtNew == 0.0 {
        return Failure;
      }
      dt := dtNew;
      status := Success;
    }

    /** `get_state()`: a fresh copy of the state. */
    method GetState() returns (s: Tensor)
      requires Valid()
      ensures fresh(s) && s.Valid()
      ensures s.height == StateSize && s.width == 1
      ensures s.content == state.content
    {
      s := Copy(state);
    }
  }

  /** One tick of the test loop: at tick 1 the impulse is replaced by the
      resting input, then the particle is updated. */
  method StepResponseTick(p: Particle, i: nat, ghost impulse: Matrix, ghost rest: Matrix, ghost s0: Matrix)
    requires p.Valid() && rest == [[0.0], [0.0], [0.0], [0.0], [0.0], [0.0]]
    requires Rectangular(impulse) && Shaped(impulse, InputSize, 1)
    requires Rectangular(s0) && Shaped(s0, StateSize, 1)
    requires p.u.content == (if i <= 1 then impulse else rest)
    requires p.state.content == Response(p.phi.content, p.gamma.content, impulse, rest, s0, i)
    modifies p, p.u
    ensures p.Valid() && p.u.content == (if i + 1 <= 1 then impulse else rest)
    ensures p.state.content == Response(p.phi.content, p.gamma.content, impulse, rest, s0, i + 1)
    ensures p.radius == old(p.radius) && p.mass == old(p.mass) && p.moi == old(p.moi)
  {
    if i == 1 {
      var _ := p.SetU(0.0, 0.0, 0.0, 0.0, 0.0, 0.0);
    }
    var _ := p.Update();
  }

  /** The test loop: n ticks from the snapshot s0, the impulse in place
      for the first one. */
  method RunTicks(p: Particle, n: nat, ghost impulse: Matrix, ghost rest: Matrix, ghost s0: Matrix)
    requires p.Valid() && rest == [[0.0], [0.0], [0.0], [0.0], [0.0], [0.0]]
    requires Rectangular(impulse) && Shaped(impulse, InputSize, 1)
    requires p.u.content == impulse && p.state.content == s0
    modifies p, p.u
    ensures p.Valid()
    ensures p.state.content == Response(p.phi.content, p.gamma.content, impulse, rest, s0, n)
    ensures p.radius == old(p.radius) && p.mass == old(p.mass) && p.moi == old(p.moi)
  {
    for i := 0 to n
      invariant p.Valid()
      invariant p.radius == old(p.radius) && p.mass == old(p.mass) && p.moi == old(p.moi)
      invariant p.u.content == (if i <= 1 then impulse else rest)
      invariant p.state.content == Response(p.phi.content, p.gamma.content, impulse, rest, s0, i)
    {
      StepResponseTick(p, i, impulse, rest, s0);
    }
  }

  /** The update test: mass 0.001, a snapshot of the state, an impulse
      (2000, 1000, 0, 0, 0, 0) for the first tick and no force afterwards,
      n ticks, and a second snapshot. The first snapshot is not touched by
      the ticks, and the second is the step response from it. */
  method StepResponseTest(p: Particle, n: nat) returns (before: Tensor, after: Tensor)
    requires p.Valid()
    modifies p, p.u
    ensures p.Valid() && fresh(before) && fresh(after)
    ensures p.radius == old(p.radius) && p.mass == 0.001 && p.moi == SphereMoi(0.001, old(p.radius))
    ensures before.content == old(p.state.content)
    ensures after.content ==
      Response(p.phi.content, p.gamma.content, [[2000.0], [1000.0], [0.0], [0.0], [0.0], [0.0]],
               [[0.0], [0.0], [0.0], [0.0], [0.0], [0.0]], before.content, n)
  {
    var _ := p.SetMass(0.001);
    before := p.GetState();
    ghost var impulse: Matrix := [[2000.0], [1000.0], [0.0], [0.0], [0.0], [0.0]];
    ghost var rest: Matrix := [[0.0], [0.0], [0.0], [0.0], [0.0], [0.0]];
    var _ := p.SetU(2000.0, 1000.0, 0.0, 0.0, 0.0, 0.0);
    RunTicks(p, n, impulse, rest, before.content);
    after := p.GetState();
  }

  /** The print test builds `particle a(1.2, 2.5, 0.0)`. No constructor takes
      three doubles; the call binds to the tensor constructor through the
      conversion of 0.0 to the unsigned row count 0, that is, through a 1 x 1
      zero column, which does not have 3 * dimension rows. So radius and mass
      are set and position and velocity stay zero. */
  method ParticlePrintTest() returns (p: Particle)
    ensures fresh(p) && p.Valid() && p.AtRest()
    ensures p.radius == 1.2 && p.mass == 2.5
    ensures AllZero(p.position.content) && AllZero(p.velocity.content)
  {
    var t := new Tensor.Column(0);
    p := new Particle.FromTensor(1.2, 2.5, t);
  }
}
