/**
  The errors the framework throws (`app.system.__messages`, thrown through
  `__throwError`) plus the JavaScript `TypeError` that a null dereference or a
  call of a non-function raises in the modelled code.
 */
module Errors {

  datatype Error =
    | PathDefinition
    | PathAlreadyExist(path: string)
    | RouteNameExist(name: string)
    | PathPatternAlreadyExist(path: string)
    | RouteNameNotExist(name: string)
    | RouteEventAlreadyRegistered(name: string)
    | RedirectNoPath
    | RoutingEnabledNotDefined
    | ModuleNotExist
    | RestrictedName(name: string)
    | ApplicationEventAlreadyExist(name: string)
    | ApplicationEventNotExist(name: string)
    | ApplicationEventCallbackNull(name: string)
    | AbstractAlreadyRegistered(name: string)
    | InterceptorAlreadyRegistered(name: string)
    | ComponentNotDeclaredInComponents(name: string)
    | TypeError(what: string)
}
