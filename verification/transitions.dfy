/** `GenericTransition`: one step of experience over some representation `S` of a state. */
module Transitions {
  datatype GenericTransition<S> = GenericTransition(
    state: S,
    nextState: S,
    action: nat,
    reward: real,
    terminated: bool)
}
